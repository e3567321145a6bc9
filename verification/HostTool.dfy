/** The host side, tools/slcan_tool.py: frame encoder, frame decoder and stream reader. It is
    an independent implementation; the theorems relate it to the firmware's codec and ports. */
module HostTool {
  import opened Bytes
  import opened Hex
  import opened Slcan
  import opened Can
  import opened Wire

  // ---- Python text primitives on the bytes of an ASCII line ---------------------------------

  predicate IsSpace(c: byte) { 9 <= c <= 13 || c == 32 }

  function StripFront(s: seq<byte>): seq<byte>
  {
    if s != [] && IsSpace(s[0]) then StripFront(s[1..]) else s
  }

  function StripBack(s: seq<byte>): seq<byte>
  {
    if s != [] && IsSpace(s[|s| - 1]) then StripBack(s[..|s| - 1]) else s
  }

  const UNDERSCORE: byte := '_' as int

  function DropUnderscores(s: seq<byte>): seq<byte>
  {
    if s == [] then []
    else DropUnderscores(s[..|s| - 1]) + (if s[|s| - 1] == UNDERSCORE then [] else [s[|s| - 1]])
  }

  /** Digits with single underscores between them. */
  function PyDigits(s: seq<byte>): Option<nat>
  {
    if s == [] || s[0] == UNDERSCORE || s[|s| - 1] == UNDERSCORE
       || (exists i :: 0 <= i < |s| - 1 && s[i] == UNDERSCORE && s[i + 1] == UNDERSCORE)
       || !AllHex(DropUnderscores(s)) then None
    else Some(HexValue(DropUnderscores(s)))
  }

  /** `int(s, 16)`: blanks around, an optional sign and `0x` prefix, then digits. */
  function PyInt16(s: seq<byte>): Option<int>
  {
    var t := StripBack(StripFront(s));
    var signed := t != [] && (t[0] == '+' as int || t[0] == '-' as int);
    var u := if signed then t[1..] else t;
    var prefixed := |u| >= 2 && u[0] == '0' as int && (u[1] == 'x' as int || u[1] == 'X' as int);
    var v := if !prefixed then u else if |u| > 2 && u[2] == UNDERSCORE then u[3..] else u[2..];
    match PyDigits(v)
    case None => None
    case Some(n) => Some(if signed && t[0] == '-' as int then 0 - (n as int) else n as int)
  }

  /** `bytes.fromhex(s)`: digit pairs, with blanks allowed between pairs. */
  function PyFromHex(s: seq<byte>): Option<seq<byte>>
  {
    if s == [] then Some([])
    else if IsSpace(s[0]) then PyFromHex(s[1..])
    else if |s| < 2 || !IsHex(s[0]) || !IsHex(s[1]) then None
    else
      DigitsByte(s[0], s[1]);
      match PyFromHex(s[2..])
      case None => None
      case Some(r) => Some([Nibble(s[0]).value * 16 + Nibble(s[1]).value] + r)
  }

  /** Python slicing clamps both bounds. */
  function Slice(s: seq<byte>, from: nat, to: nat): seq<byte>
  {
    if from >= |s| || to <= from then [] else s[from..if to < |s| then to else |s|]
  }

  // ---- encode_frame / decode_frame ----------------------------------------------------------

  /** `f"{n:X}"`. */
  function HexText(n: nat): seq<byte>
  {
    if n < 16 then [HexDigit(n)] else HexText(n / 16) + [HexDigit(n)]
  }

  function EncodeFrame(id: int, data: seq<byte>, ext: bool, rtr: bool): seq<byte>
  {
    [TypeChar(ext, rtr)] + HexN(Masked(id, ext), IdLen(ext)) + HexText(|data|) + (if rtr then [] else HexBytes(data))
  }

  datatype Decoded = Decoded(id: int, ext: bool, rtr: bool, dlc: int, data: seq<byte>)

  function DecodeFrame(line: seq<byte>): Option<Decoded>
  {
    if line == [] || FrameKind(line[0]).None? then None
    else
      var (ext, rtr) := FrameKind(line[0]).value;
      var n := IdLen(ext);
      var id := PyInt16(Slice(line, 1, n + 1));
      if id.None? || |line| <= n + 1 then None
      else
        var dlc := PyInt16([line[n + 1]]);
        if dlc.None? then None
        else if rtr then Some(Decoded(id.value, ext, true, dlc.value, []))
        else
          var want := if dlc.value < 0 then 0 else 2 * dlc.value;
          var digits := Slice(line, n + 2, n + 2 + want);
          if |digits| < want || PyFromHex(digits).None? then None
          else Some(Decoded(id.value, ext, false, dlc.value, PyFromHex(digits).value))
  }

  /** What the host should show for a frame. */
  function View(f: CanFrame): Decoded
    requires Shaped(f)
  {
    Decoded(f.id, f.ext, f.rtr, f.dlc, f.data[..PayloadLen(f)])
  }

  function Views(fs: seq<CanFrame>): (v: seq<Decoded>)
    requires forall i :: 0 <= i < |fs| ==> Shaped(fs[i])
  {
    seq(|fs|, i requires 0 <= i < |fs| => View(fs[i]))
  }

  // ---- Codec lemmas ---------------------------------------------------------------------------

  lemma HexHasNoBlank(c: byte)
    requires IsHex(c)
    ensures !IsSpace(c) && c != UNDERSCORE && c != '+' as int && c != '-' as int
    ensures c != 'x' as int && c != 'X' as int
  {
  }

  lemma {:induction false} KeepsHex(s: seq<byte>)
    requires AllHex(s)
    ensures DropUnderscores(s) == s
  {
    if s != [] {
      KeepsHex(s[..|s| - 1]);
      HexHasNoBlank(s[|s| - 1]);
      assert s == s[..|s| - 1] + [s[|s| - 1]];
    }
  }

  lemma StripHex(s: seq<byte>)
    requires AllHex(s) && s != []
    ensures StripFront(s) == s && StripBack(s) == s
  {
    hide Nibble;
    HexHasNoBlank(s[0]);
    HexHasNoBlank(s[|s| - 1]);
  }

  lemma DigitsOfHex(s: seq<byte>)
    requires AllHex(s) && s != []
    ensures PyDigits(s) == Some(HexValue(s))
  {
    hide Nibble, HexValue, DropUnderscores;
    KeepsHex(s);
    forall i | 0 <= i < |s| ensures s[i] != UNDERSCORE {
      HexHasNoBlank(s[i]);
    }
  }

  lemma IntOfHex(s: seq<byte>)
    requires AllHex(s) && s != []
    ensures PyInt16(s) == Some(HexValue(s))
  {
    hide Nibble, HexValue, StripFront, StripBack, PyDigits;
    StripHex(s);
    DigitsOfHex(s);
    HexHasNoBlank(s[0]);
    if |s| >= 2 {
      HexHasNoBlank(s[1]);
    }
  }

  lemma {:induction false} HexBytesCons(b: byte, d: seq<byte>)
    ensures HexBytes([b] + d) == [HexDigit(b / 16), HexDigit(b)] + HexBytes(d)
  {
    hide HexDigit, HexBytes;
    if d == [] {
      EmptyHex();
      HexBytesSnoc([], b);
      assert [b] + d == [] + [b];
    } else {
      var e, c := d[..|d| - 1], d[|d| - 1];
      HexBytesCons(b, e);
      HexBytesSnoc(e, c);
      HexBytesSnoc([b] + e, c);
      assert [b] + d == ([b] + e) + [c] && d == e + [c];
    }
  }

  lemma {:induction false} FromHexOfHex(d: seq<byte>)
    ensures PyFromHex(HexBytes(d)) == Some(d)
  {
    hide HexDigit, HexBytes, Nibble;
    if d == [] {
      EmptyHex();
    } else {
      var b, e := d[0], d[1..];
      var hi, lo := HexDigit(b / 16), HexDigit(b);
      FromHexOfHex(e);
      HexBytesCons(b, e);
      ByteDigits(b, hi, lo);
      HexHasNoBlank(hi);
      var s := HexBytes(d);
      assert d == [b] + e && s == [hi, lo] + HexBytes(e);
      assert s[2..] == HexBytes(e);
    }
  }

  /** Blanks may stand before a digit pair, but not inside one. */
  lemma FromHexBlanks(s: seq<byte>, c: byte)
    requires IsHex(c)
    ensures PyFromHex([32] + s) == PyFromHex(s) && PyFromHex([c, 32] + s) == None
  {
    HexHasNoBlank(c);
    assert ([32] + s)[1..] == s;
  }

  lemma SliceMiddle(a: seq<byte>, b: seq<byte>, c: seq<byte>)
    ensures Slice(a + b + c, |a|, |a| + |b|) == b
  {
  }

  /** The host decodes a forwarded line to the frame, whether or not it carries a timestamp. */
  lemma DecodePrinted(f: CanFrame, rest: seq<byte>)
    requires Shaped(f) && IdFits(f)
    ensures DecodeFrame(Body(f) + rest) == Some(View(f))
  {
    hide HexN, HexDigit, HexBytes, Nibble, HexValue, Pow16, PyInt16, PyFromHex, Slice;
    var n, d := IdLen(f.ext), f.data[..PayloadLen(f)];
    var c, id, dl, pay := TypeChar(f.ext, f.rtr), HexN(f.id, n), HexDigit(f.dlc), HexBytes(d);
    var line := Body(f) + rest;
    ValueOfPrinted(f.id, n);
    IntOfHex(id);
    DlcText(f.dlc);
    FromHexOfHex(d);
    assert line == [c] + id + ([dl] + pay + rest);
    SliceMiddle([c], id, [dl] + pay + rest);
    assert line == ([c] + id + [dl]) + pay + rest;
    SliceMiddle([c] + id + [dl], pay, rest);
    assert line[n + 1] == dl && line[0] == c;
  }

  lemma DlcText(dlc: nat)
    requires dlc < 16
    ensures PyInt16([HexDigit(dlc)]) == Some(dlc)
  {
    DigitNibble(dlc);
    var s := [HexDigit(dlc)];
    assert s[..0] == [];
    IntOfHex(s);
  }

  /** `can_id & mask`: the low 29 or 11 bits, also of a negative number. */
  function Masked(id: int, ext: bool): (m: nat)
    ensures m < if ext then 0x2000_0000 else 0x800
  {
    if ext then id % 0x2000_0000 else id % 0x800
  }

  /** `parse_tx` inverts `encode_frame` for payloads of at most 8 bytes. */
  lemma ParseEncoded(id: int, data: seq<byte>, ext: bool, rtr: bool)
    requires |data| <= 8
    ensures var p := if rtr then [] else data;
            Parsed(EncodeFrame(id, data, ext, rtr)) ==
            Some(CanFrame(Masked(id, ext), ext, rtr, |data|, p + Zeros(8 - |p|)))
    ensures var parsed, limit := Parsed(EncodeFrame(id, data, ext, rtr)).value.id, if ext then 0x2000_0000 else 0x800;
            && parsed < limit && (id - parsed) % limit == 0
            && (0 <= id < limit ==> parsed == id)
  {
    hide HexN, HexDigit, HexBytes, Pow16, Parsed, Masked;
    Pow16Values();
    EmptyHex();
    var p := if rtr then [] else data;
    var f := CanFrame(Masked(id, ext), ext, rtr, |data|, p + Zeros(8 - |p|));
    assert f.data[..PayloadLen(f)] == p;
    assert Body(f) + [] == EncodeFrame(id, data, ext, rtr);
    ParsePrinted(f, []);
    assert Canon(f) == f;
    MaskedBits(id, ext);
  }

  lemma MaskedBits(id: int, ext: bool)
    ensures var limit := if ext then 0x2000_0000 else 0x800;
            Masked(id, ext) < limit && (id - Masked(id, ext)) % limit == 0 && (0 <= id < limit ==> Masked(id, ext) == id)
  {
  }

  /** Encoded and decoded lines with every field at its place. */
  lemma KnownFrames()
    ensures EncodeFrame(0x123, [0xA1, 0xB2], false, false) == Ascii("t") + Ascii("123") + Ascii("2") + Ascii("A1B2")
    ensures EncodeFrame(0x123, [0xA1, 0xB2], true, true) == Ascii("R") + Ascii("00000123") + Ascii("2")
    ensures DecodeFrame(Ascii("t") + Ascii("123") + Ascii("2") + Ascii("A1B2"))
         == Some(Decoded(0x123, false, false, 2, [0xA1, 0xB2]))
    ensures DecodeFrame(Ascii("R") + Ascii("00000123") + Ascii("2")) == Some(Decoded(0x123, true, true, 2, []))
  {
    hide HexN, HexBytes, Parsed, DecodeFrame, HexDigit, Pow16;
    KnownDigits();
    KnownLongId();
    KnownBytes();
    KnownLetters();
    EmptyHex();
    Pow16Values();
    var f := CanFrame(0x123, false, false, 2, [0xA1, 0xB2, 9, 9, 9, 9, 9, 9]);
    var g := CanFrame(0x123, true, true, 2, Zeros(8));
    assert f.data[..2] == [0xA1, 0xB2] && Zeros(8)[..0] == [];
    assert HexText(2) == Ascii("2");
    DecodePrinted(f, []);
    DecodePrinted(g, []);
    assert Body(f) + [] == Ascii("t") + Ascii("123") + Ascii("2") + Ascii("A1B2");
    assert Body(g) + [] == Ascii("R") + Ascii("00000123") + Ascii("2");
  }

  /** Python's `int(s, 16)` beyond plain digits: a sign, a `0x` prefix, blanks around. */
  lemma IntForms(s: seq<byte>)
    requires AllHex(s) && s != []
    ensures PyInt16(['-' as int] + s) == Some(0 - (HexValue(s) as int)) && PyInt16(['+' as int] + s) == Some(HexValue(s))
    ensures PyInt16(['0' as int, 'x' as int] + s) == Some(HexValue(s))
    ensures PyInt16([32] + s + [32]) == Some(HexValue(s))
    ensures PyInt16([]) == None
  {
    hide Nibble, HexValue, StripFront, StripBack, PyDigits;
    HexHasNoBlank(s[0]);
    if |s| >= 2 {
      HexHasNoBlank(s[1]);
    }
    DigitsOfHex(s);
    StripKeeps(['-' as int], s);
    StripKeeps(['+' as int], s);
    StripKeeps(['0' as int, 'x' as int], s);
    StripBlanks(s);
    assert (['-' as int] + s)[1..] == s && (['+' as int] + s)[1..] == s && (['0' as int, 'x' as int] + s)[2..] == s;
    NoDigits();
  }

  lemma NoDigits()
    ensures StripBack(StripFront([])) == [] && PyDigits([]) == None
  {
  }

  lemma StripKeeps(a: seq<byte>, s: seq<byte>)
    requires a != [] && !IsSpace(a[0]) && AllHex(s) && s != []
    ensures StripBack(StripFront(a + s)) == a + s
  {
    hide Nibble;
    HexHasNoBlank(s[|s| - 1]);
  }

  lemma StripBlanks(s: seq<byte>)
    requires AllHex(s) && s != []
    ensures StripBack(StripFront([32] + s + [32])) == s
  {
    hide Nibble;
    HexHasNoBlank(s[0]);
    HexHasNoBlank(s[|s| - 1]);
    var t := [32] + s + [32];
    assert t[1..] == s + [32] && StripFront(s + [32]) == s + [32];
    assert (s + [32])[..|s|] == s && StripBack(s) == s;
  }

  /** The leading hex digit of a number. */
  function LeadDigit(n: nat): (d: nat)
    ensures d < 16 && d <= n && (d == n <==> n < 16)
  {
    if n < 16 then n else LeadDigit(n / 16)
  }

  lemma {:induction false} LengthText(n: nat)
    ensures HexText(n) != [] && AllHex(HexText(n)) && Nibble(HexText(n)[0]) == Some(LeadDigit(n))
    ensures n < 16 ==> |HexText(n)| == 1
  {
    hide HexDigit, Nibble;
    DigitNibble(n);
    if n >= 16 {
      LengthText(n / 16);
    }
  }

  /** The fields of an encoded line as `parse_tx` cuts them: it takes only the first digit of the
      length, and whatever digits follow for the payload. */
  lemma EncodedFields(id: int, data: seq<byte>, ext: bool, rtr: bool)
    ensures var line, n, lead := EncodeFrame(id, data, ext, rtr), IdLen(ext), LeadDigit(|data|);
            && |line| >= n + 2 && line[0] == TypeChar(ext, rtr)
            && AllHex(line[1..n + 1]) && HexValue(line[1..n + 1]) == Masked(id, ext)
            && Nibble(line[n + 1]) == Some(lead)
            && (!rtr && lead <= 8 ==> |line| >= n + 2 + 2 * lead && AllHex(line[n + 2..n + 2 + 2 * lead]))
  {
    hide EncodeFrame, HexN, HexDigit, HexBytes, Nibble, HexValue, Masked, HexText, LeadDigit, Pow16, UnhexBytes, UpperAll;
    var n, c := IdLen(ext), TypeChar(ext, rtr);
    var ids, tail := HexN(Masked(id, ext), n), HexText(|data|) + (if rtr then [] else HexBytes(data));
    Pow16Values();
    ValueOfPrinted(Masked(id, ext), n);
    LengthText(|data|);
    UnhexOfHex(data);
    CutFields(c, ids, tail, if rtr then 0 else 2 * LeadDigit(|data|));
    EncodedParts(id, data, ext, rtr);
  }

  lemma EncodedParts(id: int, data: seq<byte>, ext: bool, rtr: bool)
    ensures EncodeFrame(id, data, ext, rtr) == [TypeChar(ext, rtr)] + HexN(Masked(id, ext), IdLen(ext))
              + (HexText(|data|) + (if rtr then [] else HexBytes(data)))
  {
    hide HexN, HexBytes, HexText, Masked, TypeChar, IdLen;
  }

  lemma CutFields(c: byte, ids: seq<byte>, tail: seq<byte>, k: nat)
    requires AllHex(tail) && 1 + k <= |tail|
    ensures var line, n := [c] + ids + tail, |ids|;
            && line[0] == c && line[1..n + 1] == ids && line[n + 1] == tail[0]
            && |line| >= n + 2 + k && AllHex(line[n + 2..n + 2 + k])
  {
    hide Nibble;
    assert ([c] + ids + tail)[|ids| + 2..|ids| + 2 + k] == tail[1..1 + k];
  }

  /** `parse_tx` on any line of `encode_frame`, which puts no limit on the payload: the line is
      accepted if and only if the leading hex digit of the payload length is at most 8, and read
      as the frame that was meant if and only if the payload has at most 8 bytes. */
  lemma EncodedAcceptedIff(id: int, data: seq<byte>, ext: bool, rtr: bool)
    ensures var p := Parsed(EncodeFrame(id, data, ext, rtr));
            && (p.Some? <==> LeadDigit(|data|) <= 8)
            && (p.Some? ==> Shaped(p.value) && p.value.dlc == LeadDigit(|data|))
            && (p.Some? && View(p.value) == Decoded(Masked(id, ext), ext, rtr, |data|, if rtr then [] else data)
                <==> |data| <= 8)
  {
    hide Parsed, EncodeFrame, Masked, LeadDigit;
    EncodedFields(id, data, ext, rtr);
    LineAccepted(EncodeFrame(id, data, ext, rtr), ext, rtr, LeadDigit(|data|));
    if |data| <= 8 {
      ParseEncoded(id, data, ext, rtr);
      assert View(Parsed(EncodeFrame(id, data, ext, rtr)).value).data == if rtr then [] else data;
    }
  }

  lemma LineAccepted(line: seq<byte>, ext: bool, rtr: bool, lead: nat)
    requires var n := IdLen(ext);
             && |line| >= n + 2 && line[0] == TypeChar(ext, rtr)
             && AllHex(line[1..n + 1]) && Nibble(line[n + 1]) == Some(lead)
             && (!rtr && lead <= 8 ==> |line| >= n + 2 + 2 * lead && AllHex(line[n + 2..n + 2 + 2 * lead]))
    ensures Parsed(line).Some? <==> lead <= 8
    ensures Parsed(line).Some? ==> Shaped(Parsed(line).value) && Parsed(line).value.dlc == lead
  {
    hide UnhexBytes, HexValue, Nibble, Pow16;
    if Parsed(line).Some? {
      ParsedSpells(line);
    }
  }

  /** Every payload of 16 bytes is misread: the firmware takes the line for a one-byte frame made
      of the second length digit and the first payload digit. */
  lemma SixteenBytesMisread(id: int, data: seq<byte>, ext: bool)
    requires |data| == 16
    ensures Parsed(EncodeFrame(id, data, ext, false)) ==
            Some(CanFrame(Masked(id, ext), ext, false, 1, [data[0] / 16] + Zeros(7)))
  {
    hide HexN, HexValue, Masked, UnhexBytes, HexBytes, HexDigit, Nibble;
    var line, n := EncodeFrame(id, data, ext, false), IdLen(ext);
    EncodedFields(id, data, ext, false);
    var hi := HexDigit(data[0] / 16);
    DigitNibble(0);
    DigitNibble(data[0] / 16);
    HexBytesCons(data[0], data[1..]);
    assert data == [data[0]] + data[1..];
    assert HexText(16) == HexText(1) + [HexDigit(16)];
    assert HexDigit(16) == HexDigit(0) by { SameDigit(); }
    assert line == [TypeChar(ext, false)] + HexN(Masked(id, ext), n) + HexText(16) + HexBytes(data);
    assert line[n + 2..n + 4] == [] + [HexDigit(0), hi];
    UnhexSnoc([], HexDigit(0), hi);
    EmptyHex();
    assert UnhexBytes(line[n + 2..n + 4]) == [data[0] / 16];
  }

  lemma SameDigit()
    ensures HexDigit(16) == HexDigit(0)
  {
  }

  // ---- Reader -----------------------------------------------------------------------------------

  /** The reader's state: pending bytes, statistics, and the frames it has shown. */
  datatype Host = Host(buf: seq<byte>, ack: nat, nak: nat, rx: nat, shown: seq<Decoded>)

  const NEW_HOST: Host := Host([], 0, 0, 0, [])

  function HostLine(h: Host, raw: seq<byte>): Host
  {
    if raw == [] || raw == ['z' as int] || raw == ['Z' as int] then h.(ack := h.ack + 1)
    else match DecodeFrame(raw)
      case Some(d) => h.(rx := h.rx + 1, shown := h.shown + [d])
      case None => h
  }

  function HostByte(h: Host, b: byte): Host
  {
    if b == CR then HostLine(h, h.buf).(buf := [])
    else if b == BELL then h.(nak := h.nak + 1)
    else if b == LF then h
    else h.(buf := h.buf + [b])
  }

  function Feed(h: Host, s: seq<byte>): Host
  {
    if s == [] then h else HostByte(Feed(h, s[..|s| - 1]), s[|s| - 1])
  }

  lemma {:induction false} FeedConcat(h: Host, s: seq<byte>, t: seq<byte>)
    ensures Feed(h, s + t) == Feed(Feed(h, s), t)
  {
    hide HostByte;
    if t == [] {
      assert s + t == s;
    } else {
      FeedConcat(h, s, t[..|t| - 1]);
      assert (s + t)[..|s + t| - 1] == s + t[..|t| - 1];
    }
  }

  lemma {:induction false} FeedPrintable(h: Host, s: seq<byte>)
    requires Printable(s)
    ensures Feed(h, s) == h.(buf := h.buf + s)
  {
    hide HostLine;
    if s == [] {
      assert h.buf + s == h.buf;
    } else {
      FeedPrintable(h, s[..|s| - 1]);
      assert h.buf + s == h.buf + s[..|s| - 1] + [s[|s| - 1]];
    }
  }

  /** A CR-terminated printable text reaches the line handler as it was sent. */
  lemma FeedLine(h: Host, s: seq<byte>)
    requires Printable(s) && h.buf == []
    ensures Feed(h, s + [CR]) == HostLine(h.(buf := s), s).(buf := [])
  {
    hide DecodeFrame;
    FeedConcat(h, s, [CR]);
    FeedPrintable(h, s);
    assert [] + s == s;
    var g := Feed(h, s);
    assert [CR][..0] == [];
    assert Feed(g, [CR][..0]) == g;
    assert Feed(g, [CR]) == HostByte(g, CR);
  }

  /** The effect on the host of one unit. */
  function Heard(h: Host, u: Sent): Host
    requires ValidSent(u)
  {
    match u
    case Ack(_) => h.(ack := h.ack + 1)
    case Nak => h.(nak := h.nak + 1)
    case Info(_) => h
    case Confirm(_) => h.(ack := h.ack + 1)
    case Forward(f, _) => h.(rx := h.rx + 1, shown := h.shown + [View(f)])
  }

  lemma FeedForward(h: Host, f: CanFrame, ts: Option<nat>)
    requires ValidSent(Forward(f, ts)) && h.buf == []
    ensures Feed(h, FrameLine(f, ts)) == h.(rx := h.rx + 1, shown := h.shown + [View(f)])
  {
    hide Feed, DecodeFrame, Stamp, HexN, HexBytes, HexDigit;
    FrameIsOneLine(f, ts);
    DecodePrinted(f, Stamp(ts));
    FeedLine(h, Body(f) + Stamp(ts));
    assert |Body(f) + Stamp(ts)| > 1;
  }

  lemma FeedBell(h: Host)
    ensures Feed(h, [BELL]) == h.(nak := h.nak + 1)
  {
    assert [BELL][..0] == [] && Feed(h, [BELL][..0]) == h;
  }

  lemma FeedInfo(h: Host, t: seq<byte>)
    requires PlainText(t) && h.buf == []
    ensures Feed(h, t + [CR]) == h
  {
    hide Feed;
    FeedLine(h, t);
    assert DecodeFrame(t) == None;
  }

  lemma FeedSent(h: Host, u: Sent)
    requires ValidSent(u) && h.buf == []
    ensures Feed(h, Render(u)) == Heard(h, u)
  {
    hide FrameLine, View, FrameKind, OnBus, Feed, DecodeFrame;
    match u
    case Ack(_) =>
      FeedLine(h, []);
      assert [] + [CR] == [CR];
    case Nak =>
      FeedBell(h);
    case Info(t) =>
      FeedInfo(h, t);
    case Confirm(ext) =>
      var z: seq<byte> := [if ext then 'Z' as int else 'z' as int];
      FeedLine(h, z);
      assert Render(u) == z + [CR];
    case Forward(f, ts) =>
      FeedForward(h, f, ts);
  }

  lemma {:induction false} ForwardsAreOnBus(us: seq<Sent>)
    requires AllValid(us)
    ensures forall i :: 0 <= i < |Forwards(us)| ==> OnBus(Forwards(us)[i])
  {
    hide OnBus;
    if us != [] {
      ForwardsAreOnBus(us[..|us| - 1]);
      assert ValidSent(us[|us| - 1]);
    }
  }

  /** Unambiguous stream: whatever valid units a port sends, in any order, the host's counters
      and shown frames grow by exactly the counts and frames of those units, and nothing is left
      half-read. */
  lemma {:induction false} HostRecovers(h: Host, us: seq<Sent>)
    requires AllValid(us) && h.buf == []
    ensures forall i :: 0 <= i < |Forwards(us)| ==> Shaped(Forwards(us)[i])
    ensures Feed(h, RenderAll(us)) ==
            Host([], h.ack + Count(us, IsPositive), h.nak + Count(us, IsNak), h.rx + |Forwards(us)|,
                 h.shown + Views(Forwards(us)))
  {
    hide Render, View, Feed;
    if us == [] {
      FeedPrintable(h, []);
    } else {
      var vs, u := us[..|us| - 1], us[|us| - 1];
      HostRecovers(h, vs);
      ForwardsAreOnBus(us);
      FeedConcat(h, RenderAll(vs), Render(u));
      FeedSent(Feed(h, RenderAll(vs)), u);
      if u.Forward? {
        assert h.shown + Views(Forwards(us)) == h.shown + Views(Forwards(vs)) + [View(u.f)];
      }
    }
  }

  // ---- What precedes a port's stream ------------------------------------------------------------

  /** What a stream leaves in the reader's buffer. */
  function Pending(s: seq<byte>): seq<byte>
  {
    if s == [] || s[|s| - 1] == CR then []
    else Pending(s[..|s| - 1]) + (if s[|s| - 1] == BELL || s[|s| - 1] == LF then [] else [s[|s| - 1]])
  }

  /** The lines a stream completes. */
  function Completed(s: seq<byte>): seq<seq<byte>>
  {
    if s == [] then []
    else Completed(s[..|s| - 1]) + (if s[|s| - 1] == CR then [Pending(s[..|s| - 1])] else [])
  }

  /** Lines that are neither an acknowledgement nor a frame. */
  predicate Ignored(raw: seq<byte>)
  {
    raw != [] && raw != ['z' as int] && raw != ['Z' as int] && DecodeFrame(raw).None?
  }

  /** The stream holds no BEL and completes only lines the host ignores. */
  predicate Silent(s: seq<byte>)
  {
    BELL !in s && forall i :: 0 <= i < |Completed(s)| ==> Ignored(Completed(s)[i])
  }

  /** The host's statistics stay untouched exactly by the silent streams. */
  lemma {:induction false} SilentIff(s: seq<byte>)
    ensures var h := Feed(NEW_HOST, s);
            && h.buf == Pending(s) && |h.shown| == h.rx
            && (h.ack == 0 && h.nak == 0 && h.rx == 0 <==> Silent(s))
  {
    hide DecodeFrame, Silent;
    if s == [] {
      assert Silent(s) by { NothingIsSilent(); }
    } else {
      var t, b := s[..|s| - 1], s[|s| - 1];
      SilentIff(t);
      SilentSnoc(t, b);
      assert s == t + [b];
    }
  }

  lemma NothingIsSilent()
    ensures Silent([])
  {
  }

  lemma SilentSnoc(t: seq<byte>, b: byte)
    ensures Silent(t + [b]) <==> Silent(t) && b != BELL && (b == CR ==> Ignored(Pending(t)))
  {
    hide Ignored;
    var s := t + [b];
    assert s[..|t|] == t;
    assert BELL in s <==> BELL in t || b == BELL;
    var more := if b == CR then [Pending(t)] else [];
    assert Completed(s) == Completed(t) + more;
    assert forall i :: 0 <= i < |Completed(t)| ==> Completed(s)[i] == Completed(t)[i];
    assert b == CR ==> Completed(s)[|Completed(t)|] == Pending(t);
  }

  /** A greeting ends in CR, so the port's stream starts on a fresh line; it goes unnoticed exactly
      if it is silent, as every greeting whose token has no CR, LF or BEL is. */
  lemma GreetingHeard(token: Option<seq<byte>>)
    ensures var h := Feed(NEW_HOST, Greeting(token));
            h.buf == [] && (h == NEW_HOST <==> Silent(Greeting(token)))
    ensures token.None? || Printable(token.value) ==> Silent(Greeting(token))
  {
    hide DecodeFrame, Silent, Feed;
    SilentIff(Greeting(token));
    if token.None? {
      FeedPrintable(NEW_HOST, []);
    } else if Printable(token.value) {
      var line := ['H' as int] + token.value;
      FeedLine(NEW_HOST, line);
      assert DecodeFrame(line) == None by { assert FrameKind(line[0]).None?; NoFrame(line); }
    }
  }

  lemma NoFrame(line: seq<byte>)
    requires line != [] && FrameKind(line[0]).None?
    ensures DecodeFrame(line) == None
  {
  }

  /** A token with a CR in it can be heard: this one is taken for an acknowledgement. */
  lemma LoudToken()
    ensures Feed(NEW_HOST, Greeting(Some([CR]))).ack == 1
  {
    hide Feed, DecodeFrame;
    FeedConcat(NEW_HOST, ['H' as int, CR], [CR]);
    NoFrame(['H' as int]);
    FeedLine(NEW_HOST, ['H' as int]);
    FeedLine(NEW_HOST, []);
    assert Greeting(Some([CR])) == ['H' as int, CR] + [CR] && ['H' as int, CR] == ['H' as int] + [CR];
    assert [] + [CR] == [CR];
  }

  /** BEL is counted and LF dropped wherever they stand, even inside a line. */
  lemma NoiseInLine(h: Host, s: seq<byte>)
    ensures Feed(h, s + [7]) == Feed(h, s).(nak := Feed(h, s).nak + 1) && Feed(h, s + [10]) == Feed(h, s)
  {
    assert (s + [7])[..|s|] == s && (s + [10])[..|s|] == s;
  }

  /** `Reader`: a byte buffer and counters that every received byte updates. */
  class Reader {
    var buf: seq<byte>
    var ack: nat
    var nak: nat
    var rx: nat
    var shown: seq<Decoded>

    ghost function State(): Host
      reads this
    {
      Host(buf, ack, nak, rx, shown)
    }

    constructor ()
      ensures State() == NEW_HOST
    {
      buf, ack, nak, rx, shown := [], 0, 0, 0, [];
    }

    method Dispatch(raw: seq<byte>)
      modifies this
      ensures State() == HostLine(old(State()), raw)
    {
      if raw == [] {
        ack := ack + 1;
        return;
      }
      if raw == ['z' as int] || raw == ['Z' as int] {
        ack := ack + 1;
        return;
      }
      var f := DecodeFrame(raw);
      if f.Some? {
        rx := rx + 1;
        shown := shown + [f.value];
      }
    }

    /** `run` over one chunk returned by the serial port. */
    method Chunk(chunk: seq<byte>)
      modifies this
      ensures State() == Feed(old(State()), chunk)
    {
      hide HostLine;
      for i := 0 to |chunk|
        invariant State() == Feed(old(State()), chunk[..i])
      {
        assert chunk[..i + 1][..i] == chunk[..i];
        var b := chunk[i];
        if b == CR {
          Dispatch(buf);
          buf := [];
        } else if b == BELL {
          nak := nak + 1;
        } else if b != LF {
          buf := buf + [b];
        }
      }
      assert chunk[..|chunk|] == chunk;
    }
  }
}
