/** Key capture, display and pinning of src/autoconnect.rs: the key shown after a connection can
    be pasted into the URL and pins the same server. */
module Pinning {
  import opened Bytes
  import opened Hex
  import opened Text

  const SLASH: byte := '/' as int
  const QUERY: byte := '?' as int

  const KEY_LEN: nat := 65

  /** The SubjectPublicKeyInfo bit string of an uncompressed P-256 point. */
  const SPKI: seq<byte> := [0x03, 0x42, 0x00, 0x04]

  /** `extract_p256_pubkey`. */
  function ExtractKey(der: seq<byte>): (k: Option<seq<byte>>)
    ensures k.Some? ==> |k.value| == KEY_LEN && k.value[0] == 0x04
  {
    match Find(der, SPKI)
    case None => None
    case Some(i) =>
      if i + 3 + KEY_LEN > |der| then None
      else
        assert der[i..i + 4][3] == SPKI[3];
        Some(der[i + 3..i + 3 + KEY_LEN])
  }

  /** What `parse_pubkey` accepts, and as what. */
  function PubkeyOf(hex: seq<byte>): Option<seq<byte>>
  {
    if |hex| == 2 * KEY_LEN && AllHex(hex) && UnhexBytes(hex)[0] == 0x04 then Some(UnhexBytes(hex)) else None
  }

  /** `parse_pubkey`, filling the array two digits at a time. */
  method ParsePubkey(hex: seq<byte>) returns (r: Option<seq<byte>>)
    ensures r == PubkeyOf(hex)
  {
    hide UnhexBytes, Nibble;
    if |hex| != 130 {
      return None;
    }
    var out := new byte[65](_ => 0);
    assert UnhexBytes(hex[..0]) == [] by { EmptyHex(); assert hex[..0] == []; }
    for i := 0 to 65
      invariant AllHex(hex[..2 * i]) && out[..i] == UnhexBytes(hex[..2 * i])
    {
      var hi, lo := Nibble(hex[2 * i]), Nibble(hex[2 * i + 1]);
      if hi.None? || lo.None? {
        return None;
      }
      DigitsByte(hex[2 * i], hex[2 * i + 1]);
      UnhexSnoc(hex[..2 * i], hex[2 * i], hex[2 * i + 1]);
      assert hex[..2 * i + 2] == hex[..2 * i] + [hex[2 * i], hex[2 * i + 1]];
      out[i] := hi.value * 16 + lo.value;
      assert out[..i + 1] == out[..i] + [out[i]];
    }
    assert hex[..130] == hex && out[..65] == out[..];
    if out[0] != 0x04 {
      return None;
    }
    return Some(out[..]);
  }

  /** `der` carries the uncompressed P-256 point `key`: 04, X and Y, right after the first bit-string
      header 03 42 00 that a 04 follows. */
  ghost predicate Carries(der: seq<byte>, key: seq<byte>)
  {
    |key| == 65 && key[0] == 0x04 && exists before, after :: FirstPoint(der, before, key, after)
  }

  predicate FirstPoint(der: seq<byte>, before: seq<byte>, key: seq<byte>, after: seq<byte>)
  {
    && der == before + [0x03, 0x42, 0x00] + key + after
    && forall j: nat :: j < |before| ==> !MatchAt(der, [0x03, 0x42, 0x00, 0x04], j)
  }

  /** What is extracted is exactly the key carried; nothing is, if none is carried whole. */
  lemma ExtractIff(der: seq<byte>, key: seq<byte>)
    ensures ExtractKey(der) == Some(key) <==> Carries(der, key)
  {
    if ExtractKey(der) == Some(key) {
      var i := Find(der, SPKI).value;
      var before, after := der[..i], der[i + 68..];
      assert der[i..i + 3] == der[i..i + 4][..3] == [0x03, 0x42, 0x00];
      assert der == before + der[i..i + 3] + der[i + 3..i + 68] + after;
      assert FirstPoint(der, before, key, after);
    }
    if Carries(der, key) {
      var before, after :| FirstPoint(der, before, key, after);
      KeyFound(der, before, key, after);
    }
  }

  lemma KeyFound(der: seq<byte>, before: seq<byte>, key: seq<byte>, after: seq<byte>)
    requires |key| == 65 && key[0] == 0x04 && FirstPoint(der, before, key, after)
    ensures ExtractKey(der) == Some(key)
  {
    var i := |before|;
    assert der[i..i + 4] == SPKI by { assert der[i + 3] == key[0]; }
    FindIs(der, SPKI, i);
    assert der[i + 3..i + 68] == key;
  }

  /** Printing a captured key as hex and reading it back gives the key. */
  lemma ShownKeyParses(der: seq<byte>, key: seq<byte>)
    requires Carries(der, key)
    ensures ExtractKey(der) == Some(key) && PubkeyOf(HexBytes(key)) == Some(key)
  {
    hide HexBytes, UnhexBytes, ExtractKey;
    ExtractIff(der, key);
    UnhexOfHex(key);
  }

  /** A text is accepted as `key` exactly if it is the 130 hex digits of a 65-byte point starting
      with 04, in either case. */
  lemma PubkeyIff(hex: seq<byte>, key: seq<byte>)
    ensures PubkeyOf(hex) == Some(key) <==> |key| == 65 && key[0] == 0x04 && |hex| == 130 && UpperAll(hex) == HexBytes(key)
  {
    hide HexBytes, UnhexBytes, Nibble, Upper, HexDigit;
    if AllHex(hex) && |hex| % 2 == 0 {
      HexOfUnhex(hex);
    }
    if UpperAll(hex) == HexBytes(key) && |hex| == 130 {
      UnhexOfHex(key);
      UpperHex(hex);
      HexOfUnhex(hex);
      UnhexOfHex(UnhexBytes(hex));
    }
  }

  lemma UpperHex(s: seq<byte>)
    requires AllHex(UpperAll(s))
    ensures AllHex(s)
  {
    forall i | 0 <= i < |s| ensures IsHex(s[i]) {
      assert IsHex(UpperAll(s)[i]);
    }
  }

  // ---- The URL ----------------------------------------------------------------------------------

  datatype Url = Url(tls: bool, host: seq<byte>, port: nat, pubkey: Option<seq<byte>>, token: Option<seq<byte>>)

  const TLS: seq<byte> := Ascii("tls")
  const TCP: seq<byte> := Ascii("tcp")
  const SEPARATOR: seq<byte> := Ascii("://")
  const PUBKEY: seq<byte> := Ascii("pubkey")
  const TOKEN: seq<byte> := Ascii("token")

  /** `trim_end_matches('/')`. */
  function TrimSlashes(s: seq<byte>): seq<byte>
  {
    if s != [] && s[|s| - 1] == SLASH then TrimSlashes(s[..|s| - 1]) else s
  }

  /** The value of the last `key=value` pair with this key. */
  function LastValue(pairs: seq<seq<byte>>, key: seq<byte>): Option<seq<byte>>
  {
    if pairs == [] then None
    else
      var kv := SplitOnce(pairs[|pairs| - 1], [EQUALS]);
      if kv.Some? && kv.value.0 == key then Some(kv.value.1) else LastValue(pairs[..|pairs| - 1], key)
  }

  /** What `parse_url` accepts, and as what. */
  function UrlOf(url: seq<byte>): Option<Url>
  {
    match SplitOnce(url, SEPARATOR)
    case None => None
    case Some((scheme, rest)) =>
      if scheme != TLS && scheme != TCP then None
      else
        var q := SplitOnce(rest, [QUERY]);
        var authority := TrimSlashes(if q.Some? then q.value.0 else rest);
        match RSplitOnce(authority, COLON)
        case None => None
        case Some((host, portText)) =>
          var port := ParseUnsigned(portText, 65536);
          if port.None? || host == [] then None
          else
            var pairs := if q.Some? then Split(q.value.1, [AMP]) else [];
            Some(Url(scheme == TLS, host, port.value, LastValue(pairs, PUBKEY), LastValue(pairs, TOKEN)))
  }

  /** The query loop of `parse_url`: later pairs overwrite earlier ones. */
  method ParseQuery(pairs: seq<seq<byte>>) returns (pubkey: Option<seq<byte>>, token: Option<seq<byte>>)
    ensures pubkey == LastValue(pairs, PUBKEY) && token == LastValue(pairs, TOKEN)
  {
    hide SplitOnce;
    KeysDiffer();
    pubkey, token := None, None;
    for i := 0 to |pairs|
      invariant pubkey == LastValue(pairs[..i], PUBKEY) && token == LastValue(pairs[..i], TOKEN)
    {
      assert pairs[..i + 1][..i] == pairs[..i];
      var kv := SplitOnce(pairs[i], [EQUALS]);
      if kv.Some? {
        if kv.value.0 == PUBKEY {
          pubkey := Some(kv.value.1);
        } else if kv.value.0 == TOKEN {
          token := Some(kv.value.1);
        }
      }
    }
    assert pairs[..|pairs|] == pairs;
  }

  lemma KeysDiffer()
    ensures PUBKEY != TOKEN && EQUALS !in PUBKEY && EQUALS !in TOKEN && AMP !in PUBKEY && AMP !in TOKEN
  {
    assert |PUBKEY| != |TOKEN|;
  }

  /** `parse_url`. */
  method ParseUrl(url: seq<byte>) returns (r: Option<Url>)
    ensures r == UrlOf(url)
  {
    hide SplitOnce, RSplitOnce, Split, ParseUnsigned, TrimSlashes, LastValue;
    var parts := SplitOnce(url, SEPARATOR);
    if parts.None? {
      return None;
    }
    var (scheme, rest) := parts.value;
    if scheme != TLS && scheme != TCP {
      return None;
    }
    var split := SplitOnce(rest, [QUERY]);
    var authority := TrimSlashes(if split.Some? then split.value.0 else rest);
    var hp := RSplitOnce(authority, COLON);
    if hp.None? {
      return None;
    }
    var port := ParseUnsigned(hp.value.1, 65536);
    if port.None? || hp.value.0 == [] {
      return None;
    }
    var pubkey, token := ParseQuery(if split.Some? then Split(split.value.1, [AMP]) else []);
    return Some(Url(scheme == TLS, hp.value.0, port.value, pubkey, token));
  }

  /** A URL as the web page tells the user to write it; the slashes before `?` are optional. */
  function UrlText(tls: bool, host: seq<byte>, port: seq<byte>, slashes: nat, query: Option<seq<byte>>): seq<byte>
  {
    (if tls then Ascii("tls") else Ascii("tcp")) + Ascii("://") +
    (host + Ascii(":") + port + seq(slashes, _ => '/' as int) + (if query.Some? then Ascii("?") + query.value else []))
  }

  /** The same with a key and perhaps a token. */
  function Written(host: seq<byte>, port: seq<byte>, slashes: nat, key: seq<byte>, token: Option<seq<byte>>): seq<byte>
  {
    UrlText(true, host, port, slashes, Some(QueryText(key, token)))
  }

  function QueryText(key: seq<byte>, token: Option<seq<byte>>): seq<byte>
  {
    Ascii("pubkey=") + HexBytes(key) + (if token.Some? then Ascii("&token=") + token.value else [])
  }

  /** What a host, port and token may be. */
  predicate Fields(host: seq<byte>, port: seq<byte>, token: Option<seq<byte>>)
  {
    && host != [] && '?' as int !in host
    && ParseUnsigned(port, 65536).Some?
    && (token.Some? ==> '&' as int !in token.value)
  }

  lemma SchemeSplit(tls: bool, rest: seq<byte>)
    ensures var scheme := if tls then Ascii("tls") else Ascii("tcp");
            SplitOnce(scheme + Ascii("://") + rest, SEPARATOR) == Some((scheme, rest))
  {
    var scheme := if tls then Ascii("tls") else Ascii("tcp");
    var s := scheme + Ascii("://") + rest;
    assert |scheme| == 3 && |SEPARATOR| == 3;
    assert s[3..6] == SEPARATOR;
    assert s[0] != COLON && s[1] != COLON && s[2] != COLON;
    forall j: nat | j < 3 ensures !MatchAt(s, SEPARATOR, j) {
      assert s[j..j + 3][0] == s[j];
      assert SEPARATOR[0] == COLON;
    }
    FindIs(s, SEPARATOR, 3);
    assert s[..3] == scheme && s[6..] == rest;
  }

  lemma PortText(port: seq<byte>)
    requires ParseUnsigned(port, 65536).Some?
    ensures port != [] && COLON !in port && QUERY !in port && port[|port| - 1] != SLASH
  {
    var d := DropPlus(port);
    assert d == port || (d == port[1..] && port[0] == '+' as int);
    assert IsDigit(d[|d| - 1]) && d[|d| - 1] == port[|port| - 1];
    assert forall i :: 0 <= i < |port| ==> port[i] == '+' as int || IsDigit(port[i]);
  }

  lemma {:induction false} TrimAdded(s: seq<byte>, n: nat)
    requires s != [] && s[|s| - 1] != SLASH
    ensures TrimSlashes(s + seq(n, _ => SLASH)) == s
  {
    var t := s + seq(n, _ => SLASH);
    if n == 0 {
      assert t == s;
    } else {
      TrimAdded(s, n - 1);
      assert t[..|t| - 1] == s + seq(n - 1, _ => SLASH);
    }
  }

  lemma HexHasNoAmp(key: seq<byte>)
    ensures AMP !in HexBytes(key)
  {
    hide HexBytes;
    UnhexOfHex(key);
    forall i | 0 <= i < |HexBytes(key)| ensures HexBytes(key)[i] != AMP {
      assert IsHex(HexBytes(key)[i]);
    }
  }

  lemma OnePair(pair: seq<byte>, key: seq<byte>, value: seq<byte>)
    requires SplitOnce(pair, [EQUALS]) == Some((key, value))
    ensures forall k :: LastValue([pair], k) == if k == key then Some(value) else None
  {
    var none: seq<seq<byte>> := [];
    assert [pair][..0] == none;
  }

  /** The last pair of a key wins; a pair of another key changes nothing. */
  lemma LastWins(pairs: seq<seq<byte>>, key: seq<byte>, value: seq<byte>, k: seq<byte>)
    requires '=' as int !in key
    ensures LastValue(pairs + [key + Ascii("=") + value], k) == if k == key then Some(value) else LastValue(pairs, k)
  {
    hide SplitOnce;
    assert Ascii("=") == [EQUALS];
    SplitOnceByte(key, EQUALS, value);
    assert (pairs + [key + Ascii("=") + value])[..|pairs|] == pairs;
  }

  lemma QueryPairs(key: seq<byte>, token: Option<seq<byte>>)
    requires token.Some? ==> AMP !in token.value
    ensures var pairs := Split(QueryText(key, token), [AMP]);
            LastValue(pairs, PUBKEY) == Some(HexBytes(key)) && LastValue(pairs, TOKEN) == token
  {
    hide HexBytes, SplitOnce;
    KeysDiffer();
    HexHasNoAmp(key);
    assert Ascii("pubkey=") == PUBKEY + [EQUALS] && Ascii("&token=") == [AMP] + (TOKEN + [EQUALS]);
    var first := PUBKEY + [EQUALS] + HexBytes(key);
    SplitOnceByte(PUBKEY, EQUALS, HexBytes(key));
    if token.Some? {
      var second := TOKEN + [EQUALS] + token.value;
      assert QueryText(key, token) == first + [AMP] + second;
      SplitOnceByte(first, AMP, second);
      SplitNone(second);
      SplitOnceByte(TOKEN, EQUALS, token.value);
      var pairs := Split(QueryText(key, token), [AMP]);
      assert pairs == [first, second];
      assert pairs[..1] == [first];
      OnePair(first, PUBKEY, HexBytes(key));
    } else {
      assert QueryText(key, token) == first;
      SplitNone(first);
      OnePair(first, PUBKEY, HexBytes(key));
    }
  }

  lemma SplitNone(s: seq<byte>)
    requires AMP !in s
    ensures Split(s, [AMP]) == [s]
  {
    FindNoByte(s, AMP);
  }

  /** The fields a query gives. */
  function QueryValue(query: Option<seq<byte>>, key: seq<byte>): Option<seq<byte>>
  {
    if query.Some? then LastValue(Split(query.value, [AMP]), key) else None
  }

  lemma UrlRead(tls: bool, host: seq<byte>, port: seq<byte>, slashes: nat, query: Option<seq<byte>>)
    requires Fields(host, port, None)
    ensures UrlOf(UrlText(tls, host, port, slashes, query)) ==
            Some(Url(tls, host, ParseUnsigned(port, 65536).value, QueryValue(query, PUBKEY), QueryValue(query, TOKEN)))
  {
    hide SplitOnce, RSplitOnce, Split, ParseUnsigned, TrimSlashes, LastValue, Ascii;
    Marks();
    var authority := host + [COLON] + port;
    var before := authority + seq(slashes, _ => SLASH);
    var rest := before + (if query.Some? then [QUERY] + query.value else []);
    SchemeSplit(tls, rest);
    PortText(port);
    assert QUERY !in before;
    if query.Some? {
      SplitOnceByte(before, QUERY, query.value);
      assert rest == before + [QUERY] + query.value;
    } else {
      NoQuery(before);
      assert rest == before;
    }
    TrimAdded(authority, slashes);
    RSplitByte(host, COLON, port);
    assert UrlText(tls, host, port, slashes, query) == (if tls then TLS else TCP) + SEPARATOR + rest;
  }

  lemma NoQuery(s: seq<byte>)
    requires QUERY !in s
    ensures SplitOnce(s, [QUERY]) == None
  {
    FindNoByte(s, QUERY);
  }

  lemma Marks()
    ensures Ascii(":") == [COLON] && Ascii("?") == [QUERY] && SLASH == '/' as int && TLS != TCP
    ensures TLS == Ascii("tls") && TCP == Ascii("tcp") && SEPARATOR == Ascii("://") && |SEPARATOR| == 3
    ensures PUBKEY == Ascii("pubkey") && TOKEN == Ascii("token")
    ensures LastValue([], PUBKEY) == None && LastValue([], TOKEN) == None
  {
    assert TLS[1] != TCP[1];
  }

  lemma {:induction false} SlashesTrimmed(s: seq<byte>) returns (n: nat)
    ensures s == TrimSlashes(s) + seq(n, _ => SLASH)
  {
    if s != [] && s[|s| - 1] == SLASH {
      var m := SlashesTrimmed(s[..|s| - 1]);
      n := m + 1;
      assert s == s[..|s| - 1] + [SLASH];
      assert seq(n, _ => SLASH) == seq(m, _ => SLASH) + [SLASH];
    } else {
      n := 0;
    }
  }

  /** A URL is accepted exactly if it is `tls` or `tcp`, `://`, a host that is not empty, `:`, a port
      below 65536, any slashes and perhaps `?` and a query; the fields are those. */
  lemma UrlIff(url: seq<byte>, u: Url)
    ensures UrlOf(url) == Some(u) <==>
            exists port, slashes, query :: UrlParts(url, u, port, slashes, query)
  {
    if UrlOf(url) == Some(u) {
      UrlSound(url);
    }
    forall port, slashes, query | UrlParts(url, u, port, slashes, query) ensures UrlOf(url) == Some(u) {
      UrlRead(u.tls, u.host, port, slashes, query);
    }
  }

  predicate UrlParts(url: seq<byte>, u: Url, port: seq<byte>, slashes: nat, query: Option<seq<byte>>)
  {
    && url == UrlText(u.tls, u.host, port, slashes, query)
    && u.host != [] && '?' as int !in u.host && ParseUnsigned(port, 65536) == Some(u.port)
    && u.pubkey == QueryValue(query, Ascii("pubkey")) && u.token == QueryValue(query, Ascii("token"))
  }

  lemma UrlSound(url: seq<byte>)
    requires UrlOf(url).Some?
    ensures exists port, slashes, query :: UrlParts(url, UrlOf(url).value, port, slashes, query)
  {
    hide SplitOnce, RSplitOnce, Split, ParseUnsigned, TrimSlashes, LastValue, Ascii;
    Marks();
    var u := UrlOf(url).value;
    var (scheme, rest) := SplitOnce(url, SEPARATOR).value;
    var q := SplitOnce(rest, [QUERY]);
    var before := if q.Some? then q.value.0 else rest;
    var n := SlashesTrimmed(before);
    var (host, port) := RSplitOnce(TrimSlashes(before), COLON).value;
    var query := if q.Some? then Some(q.value.1) else None;
    BeforeQuery(rest);
    assert before == host + [COLON] + port + seq(n, _ => SLASH);
    assert rest == before + (if query.Some? then [QUERY] + query.value else []);
    assert UrlParts(url, u, port, n, query);
  }

  lemma BeforeQuery(s: seq<byte>)
    ensures QUERY !in (if SplitOnce(s, [QUERY]).Some? then SplitOnce(s, [QUERY]).value.0 else s)
  {
    var f := Find(s, [QUERY]);
    forall j: nat | j < |s| && (f.Some? ==> j < f.value) ensures s[j] != QUERY {
      assert !MatchAt(s, [QUERY], j);
      assert s[j..j + 1] == [s[j]];
    }
  }

  /** A written URL is parsed to its own fields. */
  lemma WrittenParses(host: seq<byte>, port: seq<byte>, slashes: nat, key: seq<byte>, token: Option<seq<byte>>)
    requires Fields(host, port, token)
    ensures UrlOf(Written(host, port, slashes, key, token)) ==
            Some(Url(true, host, ParseUnsigned(port, 65536).value, Some(HexBytes(key)), token))
  {
    hide HexBytes, Split, ParseUnsigned, QueryText, LastValue, UrlOf, UrlText;
    QueryPairs(key, token);
    UrlRead(true, host, port, slashes, Some(QueryText(key, token)));
  }

  /** A port written in decimal is read back as that number. */
  lemma PortReadsBack(host: seq<byte>, p: nat, slashes: nat, key: seq<byte>, token: Option<seq<byte>>)
    requires host != [] && QUERY !in host && p < 65536 && (token.Some? ==> AMP !in token.value)
    ensures UrlOf(Written(host, DecimalText(p), slashes, key, token)) ==
            Some(Url(true, host, p, Some(HexBytes(key)), token))
  {
    hide UrlOf, Written, HexBytes, DecimalText, ParseUnsigned;
    ParseDecimal(p, 65536);
    WrittenParses(host, DecimalText(p), slashes, key, token);
  }

  // ---- The verifier -----------------------------------------------------------------------------

  datatype Verdict = Accepted | BadCertificate | BadTranscript | BadSignature

  /** `PinnedVerifier`: what `verify_certificate` captures and `verify_signature` checks. */
  class Verifier {
    var pin: Option<seq<byte>>
    var serverKey: Option<seq<byte>>
    var transcript: bool
    var pinMismatch: bool

    constructor (pin: Option<seq<byte>>)
      ensures this.pin == pin && serverKey == None && !transcript && !pinMismatch
    {
      this.pin, serverKey, transcript, pinMismatch := pin, None, false, false;
    }

    /** `verify_certificate` with the first certificate entry, if it is X.509. */
    method VerifyCertificate(der: Option<seq<byte>>)
      modifies this`serverKey, this`transcript
      ensures serverKey == (if der.Some? then ExtractKey(der.value) else None) && transcript
    {
      serverKey := if der.Some? then ExtractKey(der.value) else None;
      transcript := true;
    }

    /** `verify_signature`; `signed(k)` says whether the handshake signature verifies under k. */
    method VerifySignature(signed: seq<byte> -> bool) returns (v: Verdict)
      modifies this`transcript, this`pinMismatch
      ensures v == Accepted <==>
              if serverKey.None? then pin.None?
              else (pin.None? || pin == serverKey) && old(transcript) && signed(serverKey.value)
      ensures transcript <==> old(transcript) && (serverKey.None? || (pin.Some? && pin != serverKey))
      ensures pinMismatch <==> old(pinMismatch) || (serverKey.Some? && pin.Some? && pin != serverKey)
    {
      if serverKey.None? {
        return if pin.Some? then BadCertificate else Accepted;
      }
      if pin.Some? && pin.value != serverKey.value {
        pinMismatch := true;
        return BadCertificate;
      }
      if !transcript {
        return BadTranscript;
      }
      transcript := false;
      return if signed(serverKey.value) then Accepted else BadSignature;
    }
  }

  /** The pin that `autoconnect_task` takes from a URL; `None` is a bad configuration. */
  function PinOf(url: Url): Option<Option<seq<byte>>>
  {
    match url.pubkey
    case None => Some(None)
    case Some(h) =>
      match PubkeyOf(h)
      case None => None
      case Some(k) => if url.tls then Some(Some(k)) else None
  }

  /** The pin of a URL without key is none, and a key over plain TCP is a bad configuration. */
  lemma PinCases(url: Url)
    ensures url.pubkey.None? ==> PinOf(url) == Some(None)
    ensures url.pubkey.Some? && !url.tls ==> PinOf(url) == None
  {
  }

  /** The key shown after a connection always pins: written into a URL with any host, port and
      token, it parses back to the identical bytes, so the pin is exactly that server's key. */
  lemma ShownKeyPins(der: seq<byte>, key: seq<byte>, host: seq<byte>, port: seq<byte>, slashes: nat, token: Option<seq<byte>>)
    requires Carries(der, key) && Fields(host, port, token)
    ensures ExtractKey(der) == Some(key)
    ensures var url := UrlOf(Written(host, port, slashes, key, token));
            && url.Some? && url.value.host == host && url.value.token == token
            && PinOf(url.value) == Some(Some(key))
  {
    hide Written, UrlOf, PubkeyOf, HexBytes, Carries, ExtractKey;
    WrittenParses(host, port, slashes, key, token);
    ShownKeyParses(der, key);
  }

  /** Connecting to a server whose certificate carries `key`, copying the key shown and connecting
      again with the pin: the second server passes exactly if its certificate carries the same key
      and its signature verifies, and is flagged exactly if it carries another. */
  method PinSession(first: seq<byte>, ghost key: seq<byte>, second: seq<byte>, host: seq<byte>, port: seq<byte>,
                    token: Option<seq<byte>>, signed: seq<byte> -> bool) returns (v: Verdict, mismatch: bool)
    requires Carries(first, key) && Fields(host, port, token)
    ensures mismatch <==> exists other :: Carries(second, other) && other != key
    ensures v == Accepted <==> Carries(second, key) && signed(key)
  {
    hide Written, UrlOf, HexBytes, Carries;
    ShownKeyPins(first, key, host, port, 1, token);
    var shown := ExtractKey(first);
    var url := ParseUrl(Written(host, port, 1, shown.value, token));
    var pin := PinOf(url.value);
    var verifier := new Verifier(pin.value);
    verifier.VerifyCertificate(Some(second));
    forall k ensures ExtractKey(second) == Some(k) <==> Carries(second, k) {
      ExtractIff(second, k);
    }
    v := verifier.VerifySignature(signed);
    mismatch := verifier.pinMismatch;
  }
}
