/** The SLCAN (LAWICEL/CANUSB) frame codec of src/slcan.rs: parser, printer, and the theorem
    that the parser accepts exactly the printed forms, up to the case of hex digits. */
module Slcan {
  import opened Bytes
  import opened Hex

  const MAX_FRAME_ASCII: nat := 32

  datatype CanFrame = CanFrame(id: nat, ext: bool, rtr: bool, dlc: nat, data: seq<byte>)

  /** The shape the Rust struct guarantees, with the documented `dlc` range. */
  predicate Shaped(f: CanFrame)
  {
    f.id < U32 && f.dlc <= 8 && |f.data| == 8
  }

  function IdLen(ext: bool): nat { if ext then 8 else 3 }

  /** Number of payload bytes that are printed. */
  function PayloadLen(f: CanFrame): nat { if f.rtr then 0 else f.dlc }

  /** The identifier has no more digits than the line format prints. */
  predicate IdFits(f: CanFrame) { f.id < Pow16(IdLen(f.ext)) }

  /** The part of a frame that a line carries: bytes past the payload are zero. */
  function Canon(f: CanFrame): CanFrame
    requires Shaped(f)
  {
    f.(data := f.data[..PayloadLen(f)] + Zeros(8 - PayloadLen(f)))
  }

  predicate Canonical(f: CanFrame)
  {
    Shaped(f) && IdFits(f) && f == Canon(f)
  }

  function TypeChar(ext: bool, rtr: bool): byte
  {
    if rtr then (if ext then 'R' as int else 'r' as int)
    else (if ext then 'T' as int else 't' as int)
  }

  /** The line of a frame, without timestamp and CR. */
  function Body(f: CanFrame): (s: seq<byte>)
    requires Shaped(f)
    ensures |s| == 2 + IdLen(f.ext) + 2 * PayloadLen(f)
  {
    [TypeChar(f.ext, f.rtr)] + HexN(f.id, IdLen(f.ext)) + [HexDigit(f.dlc)] + HexBytes(f.data[..PayloadLen(f)])
  }

  function Stamp(ts: Option<nat>): (s: seq<byte>)
    ensures |s| <= 4
  {
    match ts
    case None => []
    case Some(t) => HexN(t, 4)
  }

  /** The whole line that `format_frame` writes. */
  function FrameLine(f: CanFrame, ts: Option<nat>): seq<byte>
    requires Shaped(f)
  {
    Body(f) + Stamp(ts) + [CR]
  }

  /** Upper-case every hex digit after the type letter, which is case-sensitive. */
  function UpperTail(s: seq<byte>): (u: seq<byte>)
    ensures |u| == |s|
  {
    if s == [] then [] else [s[0]] + UpperAll(s[1..])
  }

  function FrameKind(c: byte): Option<(bool, bool)>
  {
    if c == 't' as int then Some((false, false))
    else if c == 'T' as int then Some((true, false))
    else if c == 'r' as int then Some((false, true))
    else if c == 'R' as int then Some((true, true))
    else None
  }

  /** What `parse_tx` computes. */
  function Parsed(line: seq<byte>): (r: Option<CanFrame>)
  {
    if line == [] || FrameKind(line[0]).None? then None
    else
      var (ext, rtr) := FrameKind(line[0]).value;
      var n := IdLen(ext);
      if |line| < n + 2 || !AllHex(line[1..n + 1]) || !IsHex(line[n + 1]) then None
      else
        var dlc := Nibble(line[n + 1]).value;
        if dlc > 8 then None
        else if rtr then Some(CanFrame(HexValue(line[1..n + 1]), ext, true, dlc, Zeros(8)))
        else if |line| < n + 2 + 2 * dlc || !AllHex(line[n + 2..n + 2 + 2 * dlc]) then None
        else
          var payload := UnhexBytes(line[n + 2..n + 2 + 2 * dlc]);
          Some(CanFrame(HexValue(line[1..n + 1]), ext, false, dlc, payload + Zeros(8 - dlc)))
  }

  /** The printed form of `f` is a prefix of `line`, up to the case of hex digits. */
  predicate Spells(line: seq<byte>, f: CanFrame)
    requires Shaped(f)
  {
    |Body(f)| <= |line| && UpperTail(line[..|Body(f)|]) == Body(f)
  }

  lemma Pow16Values()
    ensures Pow16(2) == 256 && Pow16(3) == 4096 && Pow16(4) == 65536 && Pow16(8) == U32
  {
    assert Pow16(1) == 16;
    assert Pow16(3) == 16 * Pow16(2);
    assert Pow16(5) == 16 * Pow16(4);
    assert Pow16(6) == 16 * Pow16(5);
    assert Pow16(7) == 16 * Pow16(6);
  }

  lemma UpperHexIsHex(s: seq<byte>)
    ensures AllHex(UpperAll(s)) ==> AllHex(s)
  {
    if AllHex(UpperAll(s)) {
      forall i | 0 <= i < |s| ensures IsHex(s[i]) {
        assert IsHex(UpperAll(s)[i]);
      }
    }
  }

  lemma {:induction false} ValueIgnoresCase(s: seq<byte>)
    requires AllHex(s)
    ensures AllHex(UpperAll(s)) && HexValue(UpperAll(s)) == HexValue(s)
  {
    if s != [] {
      var t := s[..|s| - 1];
      ValueIgnoresCase(t);
      UpperAllConcat(t, [s[|s| - 1]]);
      assert s == t + [s[|s| - 1]];
      HexValueSnoc(UpperAll(t), Upper(s[|s| - 1]));
    }
  }

  lemma {:induction false} UnhexIgnoresCase(s: seq<byte>)
    requires AllHex(s) && |s| % 2 == 0
    ensures AllHex(UpperAll(s)) && UnhexBytes(UpperAll(s)) == UnhexBytes(s)
  {
    ValueIgnoresCase(s);
    HexOfUnhex(s);
    UnhexOfHex(UnhexBytes(s));
  }

  lemma UpperDigit(c: byte, v: nat)
    requires Upper(c) == HexDigit(v)
    ensures Nibble(c) == Some(v % 16)
  {
    DigitNibble(v);
  }

  /** A line cut at the field boundaries of a frame of the given kind and length. */
  lemma CutLine(line: seq<byte>, n: nat, k: nat)
    requires n + 2 + 2 * k <= |line|
    ensures line[..n + 2 + 2 * k] == [line[0]] + (line[1..n + 1] + [line[n + 1]] + line[n + 2..n + 2 + 2 * k])
  {
  }

  lemma UpperFields(c: byte, id: seq<byte>, dl: byte, pay: seq<byte>)
    ensures UpperTail([c] + (id + [dl] + pay)) == [c] + UpperAll(id) + [Upper(dl)] + UpperAll(pay)
  {
    var tail := id + [dl] + pay;
    UpperAllConcat(id + [dl], pay);
    UpperAllConcat(id, [dl]);
    assert ([c] + tail)[1..] == tail;
  }

  lemma SameFields(n: nat, c: byte, c': byte, a: seq<byte>, a': seq<byte>, d: byte, d': byte, p: seq<byte>, p': seq<byte>)
    requires |a| == |a'| == n
    requires [c] + a + [d] + p == [c'] + a' + [d'] + p'
    ensures c == c' && a == a' && d == d' && p == p'
  {
    var s, s' := [c] + a + [d] + p, [c'] + a' + [d'] + p';
    assert s[0] == c && s'[0] == c';
    assert s[1..n + 1] == a && s'[1..n + 1] == a';
    assert s[n + 1] == d && s'[n + 1] == d';
    assert s[n + 2..] == p && s'[n + 2..] == p';
  }

  /** Soundness: an accepted line spells the frame it is parsed to, which is canonical. */
  lemma ParsedSpells(line: seq<byte>)
    requires Parsed(line).Some?
    ensures var f := Parsed(line).value; Canonical(f) && Spells(line, f)
  {
    hide HexN, HexBytes, UnhexBytes, HexValue, HexDigit, Nibble, Pow16, UpperAll, UpperTail, Upper;
    var f := Parsed(line).value;
    var n, k := IdLen(f.ext), PayloadLen(f);
    var id, dl, pay := line[1..n + 1], line[n + 1], line[n + 2..n + 2 + 2 * k];
    Pow16Values();
    PrintedOfValue(id);
    NibbleDigit(dl);
    assert AllHex(pay) && |pay| % 2 == 0 && f.data == UnhexBytes(pay) + Zeros(8 - k) by {
      if f.rtr {
        assert pay == [];
        HexOfUnhex(pay);
      }
    }
    HexOfUnhex(pay);
    assert f.data[..k] == UnhexBytes(pay);
    CutLine(line, n, k);
    UpperFields(line[0], id, dl, pay);
  }

  /** Completeness: a line that spells a canonical frame is parsed to that frame. */
  lemma SpelledIsParsed(line: seq<byte>, f: CanFrame)
    requires Canonical(f) && Spells(line, f)
    ensures Parsed(line) == Some(f)
  {
    hide HexN, HexBytes, UnhexBytes, HexValue, HexDigit, Nibble, Pow16, UpperAll, UpperTail, Upper;
    var n, k := IdLen(f.ext), PayloadLen(f);
    var id, dl, pay := line[1..n + 1], line[n + 1], line[n + 2..n + 2 + 2 * k];
    CutLine(line, n, k);
    UpperFields(line[0], id, dl, pay);
    UpperAllLength(id);
    SameFields(n, line[0], TypeChar(f.ext, f.rtr), UpperAll(id), HexN(f.id, n), Upper(dl), HexDigit(f.dlc),
               UpperAll(pay), HexBytes(f.data[..k]));
    SpelledFields(f, id, dl, pay);
    assert f.data == f.data[..k] + Zeros(8 - k);
    assert f.rtr ==> f.data == Zeros(8);
  }

  lemma UpperAllLength(s: seq<byte>)
    ensures |UpperAll(s)| == |s|
  {
  }

  lemma SpelledFields(f: CanFrame, id: seq<byte>, dl: byte, pay: seq<byte>)
    requires Shaped(f) && IdFits(f)
    requires UpperAll(id) == HexN(f.id, IdLen(f.ext)) && Upper(dl) == HexDigit(f.dlc)
    requires UpperAll(pay) == HexBytes(f.data[..PayloadLen(f)])
    ensures AllHex(id) && HexValue(id) == f.id
    ensures Nibble(dl) == Some(f.dlc)
    ensures AllHex(pay) && |pay| == 2 * PayloadLen(f) && UnhexBytes(pay) == f.data[..PayloadLen(f)]
  {
    hide HexN, HexBytes, UnhexBytes, HexValue, HexDigit, Nibble, Pow16, Upper;
    var d := f.data[..PayloadLen(f)];
    ValueOfPrinted(f.id, IdLen(f.ext));
    UnhexOfHex(d);
    UpperHexIsHex(id);
    UpperHexIsHex(pay);
    ValueIgnoresCase(id);
    UpperDigit(dl, f.dlc);
    assert |pay| == |UpperAll(pay)| == 2 * PayloadLen(f);
    UnhexIgnoresCase(pay);
  }

  /** `parse_tx` accepts a line as `f` exactly when `f` is canonical and the line spells it. */
  lemma ParseIffSpells(line: seq<byte>, f: CanFrame)
    requires Shaped(f)
    ensures Parsed(line) == Some(f) <==> Canonical(f) && Spells(line, f)
  {
    if Canonical(f) && Spells(line, f) {
      SpelledIsParsed(line, f);
    } else if Parsed(line) == Some(f) {
      ParsedSpells(line);
    }
  }

  lemma BodyIsUpper(f: CanFrame)
    requires Shaped(f) && IdFits(f)
    ensures UpperTail(Body(f)) == Body(f) && AllHex(Body(f)[1..])
  {
    hide HexN, HexBytes, UnhexBytes, HexValue, HexDigit, Nibble, Pow16, UpperAll, UpperTail, Upper;
    var d := f.data[..PayloadLen(f)];
    var id := HexN(f.id, IdLen(f.ext));
    ValueOfPrinted(f.id, IdLen(f.ext));
    DigitNibble(f.dlc);
    UnhexOfHex(d);
    UpperFields(TypeChar(f.ext, f.rtr), id, HexDigit(f.dlc), HexBytes(d));
    assert Body(f) == [TypeChar(f.ext, f.rtr)] + (id + [HexDigit(f.dlc)] + HexBytes(d));
  }

  /** Codec round trip: whatever follows the body (timestamp, CR, anything), parsing what was
      printed gives the frame back with the bytes past its payload zeroed. */
  lemma ParsePrinted(f: CanFrame, rest: seq<byte>)
    requires Shaped(f) && IdFits(f)
    ensures Parsed(Body(f) + rest) == Some(Canon(f))
  {
    var line, c := Body(f) + rest, Canon(f);
    assert c.data[..PayloadLen(f)] == f.data[..PayloadLen(f)];
    assert Body(c) == Body(f);
    BodyIsUpper(f);
    assert line[..|Body(f)|] == Body(f);
    SpelledIsParsed(line, c);
  }

  lemma ParseFormatted(f: CanFrame, ts: Option<nat>)
    requires Shaped(f) && IdFits(f)
    ensures Parsed(FrameLine(f, ts)) == Some(Canon(f))
  {
    ParsePrinted(f, Stamp(ts) + [CR]);
    assert FrameLine(f, ts) == Body(f) + (Stamp(ts) + [CR]);
  }

  /** The exact printed length; its maximum, 31, fits the 32-byte buffer. */
  lemma FrameLineLength(f: CanFrame, ts: Option<nat>)
    requires Shaped(f)
    ensures |FrameLine(f, ts)| == 3 + IdLen(f.ext) + 2 * PayloadLen(f) + (if ts.Some? then 4 else 0)
    ensures |FrameLine(f, ts)| <= 31 < 32 == MAX_FRAME_ASCII
  {
  }

  /** The digits after the body denote the timestamp. */
  lemma StampDenotes(f: CanFrame, t: nat)
    requires Shaped(f) && t < 65536
    ensures var line, n := FrameLine(f, Some(t)), |Body(f)|;
            && |line| == n + 5 && AllHex(line[n..n + 4]) && HexValue(line[n..n + 4]) == t
            && line[n + 4] == '\r' as int
  {
    hide HexN, HexValue, Body;
    Pow16Values();
    ValueOfPrinted(t, 4);
    assert FrameLine(f, Some(t))[|Body(f)|..|Body(f)| + 4] == HexN(t, 4);
  }

  /** One line of each kind, field by field, as the protocol writes it. */
  lemma KnownLines()
    ensures FrameLine(CanFrame(0x123, false, false, 2, [0xA1, 0xB2, 9, 9, 9, 9, 9, 9]), Some(0x4C5D))
         == Ascii("t") + Ascii("123") + Ascii("2") + Ascii("A1B2") + Ascii("4C5D") + Ascii("\r")
    ensures FrameLine(CanFrame(0x123, true, false, 2, [0xA1, 0xB2, 9, 9, 9, 9, 9, 9]), None)
         == Ascii("T") + Ascii("00000123") + Ascii("2") + Ascii("A1B2") + Ascii("\r")
    ensures FrameLine(CanFrame(0x123, false, true, 8, Zeros(8)), None) == Ascii("r") + Ascii("123") + Ascii("8") + Ascii("\r")
    ensures FrameLine(CanFrame(0x123, true, true, 0, Zeros(8)), None) == Ascii("R") + Ascii("00000123") + Ascii("0") + Ascii("\r")
  {
    hide HexN, HexBytes;
    KnownDigits();
    KnownLongId();
    KnownBytes();
    EmptyHex();
    assert [0xA1, 0xB2, 9, 9, 9, 9, 9, 9][..2] == [0xA1, 0xB2] && Zeros(8)[..0] == [];
    KnownLetters();
  }

  lemma KnownLetters()
    ensures [TypeChar(false, false)] == Ascii("t") && [TypeChar(true, false)] == Ascii("T")
    ensures [TypeChar(false, true)] == Ascii("r") && [TypeChar(true, true)] == Ascii("R")
    ensures [HexDigit(2)] == Ascii("2") && [HexDigit(8)] == Ascii("8") && [HexDigit(0)] == Ascii("0") && [CR] == Ascii("\r")
  {
  }

  lemma KnownDigits()
    ensures HexN(0x123, 3) == Ascii("123") && HexN(0x4C5D, 4) == Ascii("4C5D")
  {
    assert HexN(0, 0) == [];
    assert HexN(0x12, 2) == Ascii("12");
    assert HexN(0x4C, 2) == Ascii("4C");
  }

  lemma KnownLongId()
    ensures HexN(0x123, 8) == Ascii("00000123")
  {
    assert HexN(0, 2) == Ascii("00");
    assert HexN(0, 4) == Ascii("0000");
    assert HexN(0x1, 6) == Ascii("000001");
  }

  lemma KnownBytes()
    ensures HexBytes([0xA1, 0xB2]) == Ascii("A1B2")
  {
    EmptyHex();
    HexBytesSnoc([], 0xA1);
    HexBytesSnoc([0xA1], 0xB2);
    assert [] + [0xA1] == [0xA1] && [0xA1] + [0xB2] == [0xA1, 0xB2];
  }

  /** A printed frame is one protocol line: it ends in its only CR. */
  lemma FrameIsOneLine(f: CanFrame, ts: Option<nat>)
    requires Shaped(f) && IdFits(f) && (ts.Some? ==> ts.value < 65536)
    ensures Printable(Body(f) + Stamp(ts))
  {
    BodyIsUpper(f);
    Pow16Values();
    if ts.Some? {
      ValueOfPrinted(ts.value, 4);
    }
    HexIsPrintable(Body(f)[1..]);
    HexIsPrintable(Stamp(ts));
    assert Body(f) == [Body(f)[0]] + Body(f)[1..];
  }

  /** The payload loop of `parse_tx`: `dlc` digit pairs from `at` fill `data` in place. */
  method ParsePayload(line: seq<byte>, at: nat, dlc: nat, data: array<byte>) returns (ok: bool)
    requires dlc <= 8 == data.Length && at + 2 * dlc <= |line| && data[..] == Zeros(8)
    modifies data
    ensures ok <==> AllHex(line[at..at + 2 * dlc])
    ensures ok ==> data[..] == UnhexBytes(line[at..at + 2 * dlc]) + Zeros(8 - dlc)
  {
    hide UnhexBytes, Nibble;
    var i := at;
    assert UnhexBytes(line[at..at]) == [] by { UnhexOfHex([]); }
    for k := 0 to dlc
      invariant i == at + 2 * k
      invariant AllHex(line[at..i]) && data[..k] == UnhexBytes(line[at..i])
      invariant forall j :: k <= j < 8 ==> data[j] == 0
    {
      var hi, lo := Nibble(line[i]), Nibble(line[i + 1]);
      if hi.None? || lo.None? {
        assert line[at..at + 2 * dlc][2 * k] == line[i];
        assert line[at..at + 2 * dlc][2 * k + 1] == line[i + 1];
        return false;
      }
      NibbleDigit(line[i]);
      NibbleDigit(line[i + 1]);
      UnhexSnoc(line[at..i], line[i], line[i + 1]);
      assert line[at..i + 2] == line[at..i] + [line[i], line[i + 1]];
      data[k] := hi.value * 16 + lo.value;
      i := i + 2;
      assert data[..k + 1] == data[..k] + [data[k]];
    }
    assert data[..] == data[..dlc] + Zeros(8 - dlc);
    return true;
  }

  lemma IdValue(s: seq<byte>)
    requires AllHex(s) && (|s| == 3 || |s| == 8)
    ensures HexValue(s) % U32 == HexValue(s)
  {
    PrintedOfValue(s);
    Pow16Values();
  }

  /** `parse_tx`, with its moving index and the payload filled in place. */
  method ParseTx(line: seq<byte>) returns (r: Option<CanFrame>)
    ensures r == Parsed(line)
  {
    hide UnhexBytes, Nibble, HexValue, Pow16;
    if line == [] {
      return None;
    }
    var kind := FrameKind(line[0]);
    if kind.None? {
      return None;
    }
    var (ext, rtr) := kind.value;
    var idlen := if ext then 8 else 3;
    var i := 1;
    if |line| < i + idlen + 1 {
      return None;
    }
    var id := ParseHex(line[i..i + idlen]);
    if id.None? {
      return None;
    }
    IdValue(line[1..1 + idlen]);
    i := i + idlen;
    var dlc := Nibble(line[i]);
    if dlc.None? || dlc.value > 8 {
      return None;
    }
    i := i + 1;
    var data := new byte[8](_ => 0);
    assert data[..] == Zeros(8);
    if !rtr {
      if |line| < i + dlc.value * 2 {
        return None;
      }
      var ok := ParsePayload(line, i, dlc.value, data);
      if !ok {
        return None;
      }
    }
    r := Some(CanFrame(id.value, ext, rtr, dlc.value, data[..]));
  }

  lemma HexNShift(v: nat, n: nat, k: nat)
    requires k < n
    ensures HexN(v, n)[k] == HexDigit(v / Pow16(n - 1 - k))
  {
    if k < n - 1 {
      HexNShift(v / 16, n - 1, k);
      DivDiv(v, Pow16(n - 2 - k));
    }
  }

  lemma DivDiv(v: nat, p: nat)
    requires p > 0
    ensures v / 16 / p == v / (16 * p)
  {
    var q := v / 16 / p;
    assert v == 16 * (v / 16) + v % 16;
    var r := v / 16 - q * p;
    assert 0 <= r < p;
    assert v == q * (16 * p) + (16 * r + v % 16);
    assert 0 <= 16 * r + v % 16 < 16 * p;
    DivUnique(v, 16 * p, q, 16 * r + v % 16);
  }

  lemma DivUnique(v: int, d: int, q: int, r: int)
    requires d > 0 && 0 <= r < d && v == q * d + r
    ensures v / d == q
  {
    var k := v / d - q;
    assert v == (v / d) * d + v % d;
    assert k * d == r - v % d;
    assert -d < k * d < d;
    if k != 0 {
      MultipleIsFar(k, d);
    }
  }

  lemma MultipleIsFar(k: int, d: int)
    requires d > 0 && k != 0
    ensures k * d >= d || k * d <= -d
  {
    if k >= 1 {
      assert (k - 1) * d >= 0;
    } else {
      assert (-k - 1) * d >= 0;
    }
  }

  lemma ByteDigit(x: nat)
    ensures HexDigit(x % 256) == HexDigit(x)
  {
    assert x % 256 % 16 == x % 16;
  }

  /** The shift loop shared by the id and timestamp fields: `n` digits of `v` from `at`. */
  method WriteDigits(v: nat, n: nat, out: array<byte>, at: nat) returns (end: nat)
    requires at + n <= out.Length
    modifies out
    ensures end == at + n
    ensures forall j :: 0 <= j < at || end <= j < out.Length ==> out[j] == old(out[j])
    ensures out[at..end] == HexN(v, n)
  {
    hide HexN, HexDigit, Pow16;
    end := at;
    for k := 0 to n
      invariant end == at + k
      invariant forall j :: 0 <= j < at || at + n <= j < out.Length ==> out[j] == old(out[j])
      invariant forall j :: 0 <= j < k ==> out[at + j] == HexN(v, n)[j]
    {
      HexNShift(v, n, k);
      ByteDigit(v / Pow16(n - 1 - k));
      out[end] := HexDigit((v / Pow16(n - 1 - k)) % 256);
      end := end + 1;
    }
  }

  /** The payload loop of `format_frame`: two digits for each of the first `count` bytes. */
  method WriteBytes(d: seq<byte>, count: nat, out: array<byte>, at: nat) returns (end: nat)
    requires count <= |d| && at + 2 * count <= out.Length
    modifies out
    ensures end == at + 2 * count
    ensures forall j :: 0 <= j < at || end <= j < out.Length ==> out[j] == old(out[j])
    ensures out[at..end] == HexBytes(d[..count])
  {
    hide HexBytes, HexDigit;
    end := at;
    assert HexBytes(d[..0]) == [];
    for k := 0 to count
      invariant end == at + 2 * k
      invariant forall j :: 0 <= j < at || at + 2 * count <= j < out.Length ==> out[j] == old(out[j])
      invariant out[at..end] == HexBytes(d[..k])
    {
      ghost var before := out[at..end];
      out[end] := HexDigit(d[k] / 16);
      end := end + 1;
      out[end] := HexDigit(d[k]);
      end := end + 1;
      HexBytesSnoc(d[..k], d[k]);
      assert d[..k + 1] == d[..k] + [d[k]];
      assert out[at..end] == before + [out[end - 2], out[end - 1]];
    }
  }

  /** The type letter, id and dlc fields. */
  method WriteHead(f: CanFrame, out: array<byte>) returns (n: nat)
    requires Shaped(f) && out.Length >= MAX_FRAME_ASCII
    modifies out
    ensures n == IdLen(f.ext) + 2
    ensures out[..n] == [TypeChar(f.ext, f.rtr)] + HexN(f.id, IdLen(f.ext)) + [HexDigit(f.dlc)]
    ensures forall j :: n <= j < out.Length ==> out[j] == old(out[j])
  {
    hide HexN, HexDigit;
    out[0] := TypeChar(f.ext, f.rtr);
    n := WriteDigits(f.id, IdLen(f.ext), out, 1);
    assert out[..n] == out[..1] + out[1..n];
    out[n] := HexDigit(f.dlc);
    n := n + 1;
    assert out[..n] == out[..n - 1] + [HexDigit(f.dlc)];
  }

  /** `format_frame`: writes the line into the front of `out` and leaves the rest alone. */
  method FormatFrame(f: CanFrame, ts: Option<nat>, out: array<byte>) returns (n: nat)
    requires Shaped(f) && out.Length >= MAX_FRAME_ASCII
    modifies out
    ensures n == |FrameLine(f, ts)| <= out.Length
    ensures out[..n] == FrameLine(f, ts)
    ensures forall j :: n <= j < out.Length ==> out[j] == old(out[j])
  {
    hide HexN, HexBytes, HexDigit;
    FrameLineLength(f, ts);
    n := WriteHead(f, out);
    ghost var head := out[..n];
    n := WriteBytes(f.data, if f.rtr then 0 else f.dlc, out, n);
    assert out[..n] == head + out[|head|..n];
    assert out[..n] == Body(f);
    if ts.Some? {
      n := WriteDigits(ts.value, 4, out, n);
      assert out[..n] == Body(f) + out[|Body(f)|..n];
    }
    assert out[..n] == Body(f) + Stamp(ts);
    out[n] := CR;
    n := n + 1;
    assert out[..n] == out[..n - 1] + [CR];
  }
}
