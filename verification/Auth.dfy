/** The web login of src/http.rs and src/config.rs: form decoding, stored credentials, and HTTP
    Basic authentication (section 2 of RFC 7617). */
module Auth {
  import opened Bytes
  import opened Hex
  import opened Text
  import opened Unicode
  import Base64

  const PERCENT: byte := '%' as int
  const PLUS: byte := '+' as int

  // ---- Form decoding --------------------------------------------------------------------------

  /** What `url_decode_into` writes into a buffer with `room` bytes. */
  function UrlDecoded(s: seq<byte>, room: nat): (d: seq<byte>)
    ensures |d| <= room
  {
    if s == [] || room == 0 then []
    else if s[0] == PERCENT && |s| > 2 && IsHex(s[1]) && IsHex(s[2]) then
      DigitsByte(s[1], s[2]);
      [Nibble(s[1]).value * 16 + Nibble(s[2]).value] + UrlDecoded(s[3..], room - 1)
    else [if s[0] == PLUS then 32 else s[0]] + UrlDecoded(s[1..], room - 1)
  }

  /** How many source bytes the next decoded byte takes, and that byte. */
  function UrlStep(s: seq<byte>): (r: (nat, byte))
    requires s != []
    ensures 1 <= r.0 <= |s|
  {
    if s[0] == PERCENT && |s| > 2 && IsHex(s[1]) && IsHex(s[2]) then
      DigitsByte(s[1], s[2]);
      (3, Nibble(s[1]).value * 16 + Nibble(s[2]).value)
    else (1, if s[0] == PLUS then 32 else s[0])
  }

  /** `url_decode_into`. */
  method UrlDecodeInto(src: seq<byte>, dst: array<byte>) returns (n: nat)
    modifies dst
    ensures n <= dst.Length && dst[..n] == UrlDecoded(src, dst.Length)
    ensures forall j :: n <= j < dst.Length ==> dst[j] == old(dst[j])
  {
    hide UrlDecoded, UrlStep;
    var si, di := 0, 0;
    assert src[0..] == src;
    while si < |src| && di < dst.Length
      invariant si <= |src| && di <= dst.Length
      invariant UrlDecoded(src, dst.Length) == dst[..di] + UrlDecoded(src[si..], dst.Length - di)
      invariant forall j :: di <= j < dst.Length ==> dst[j] == old(dst[j])
    {
      ghost var before := dst[..di];
      ghost var step := UrlStep(src[si..]);
      UrlUnfold(src[si..], dst.Length - di);
      assert src[si..][step.0..] == src[si + step.0..];
      var b, width := UrlByte(src, si);
      dst[di] := b;
      di := di + 1;
      si := si + width;
      assert dst[..di] == before + [b];
    }
    UrlEnd(src[si..], dst.Length - di);
    return di;
  }

  lemma UrlEnd(s: seq<byte>, room: nat)
    requires s == [] || room == 0
    ensures UrlDecoded(s, room) == []
  {
  }

  lemma UrlUnfold(s: seq<byte>, room: nat)
    requires s != [] && room > 0
    ensures UrlDecoded(s, room) == [UrlStep(s).1] + UrlDecoded(s[UrlStep(s).0..], room - 1)
  {
  }

  /** The loop body's choice between a complete `%XX` escape and a plain byte. */
  method UrlByte(bytes: seq<byte>, si: nat) returns (b: byte, width: nat)
    requires si < |bytes|
    ensures (width, b) == UrlStep(bytes[si..])
  {
    hide Nibble;
    if bytes[si] == PERCENT && si + 2 < |bytes| {
      var h, l := Nibble(bytes[si + 1]), Nibble(bytes[si + 2]);
      if h.Some? && l.Some? {
        DigitsByte(bytes[si + 1], bytes[si + 2]);
        return h.value * 16 + l.value, 3;
      }
    }
    return if bytes[si] == PLUS then 32 else bytes[si], 1;
  }

  /** `s` is a form encoding of `p`: each byte as `%XX`, a space as `+`, or the byte itself
      where that is unambiguous. Every encoder's choices are covered. */
  predicate Encodes(s: seq<byte>, p: seq<byte>)
  {
    if s == [] then p == []
    else if s[0] == '%' as int then
      && |s| > 2 && AllHex(s[1..3])
      && p != [] && p[0] == HexValue(s[1..3]) && Encodes(s[3..], p[1..])
    else s[0] != '&' as int && p != [] && p[0] == (if s[0] == '+' as int then ' ' as int else s[0]) && Encodes(s[1..], p[1..])
  }

  lemma EscapeValue(s: seq<byte>)
    requires |s| > 2 && AllHex(s[1..3])
    ensures IsHex(s[1]) && IsHex(s[2]) && HexValue(s[1..3]) == Nibble(s[1]).value * 16 + Nibble(s[2]).value
  {
    var two := s[1..3];
    assert two[0] == s[1] && two[1] == s[2] && two[..1] == [s[1]] && two[..1][..0] == [];
    assert IsHex(two[0]) && IsHex(two[1]);
    assert HexValue(two[..1][..0]) == 0 && HexValue(two[..1]) == Nibble(s[1]).value;
  }

  /** Every form encoding of `p` decodes to `p`, cut to the room there is. */
  lemma {:induction false} DecodeEncodes(s: seq<byte>, p: seq<byte>, room: nat)
    requires Encodes(s, p)
    ensures UrlDecoded(s, room) == (if |p| <= room then p else p[..room]) && AMP !in s
  {
    hide Nibble, HexValue, UrlDecoded, AllHex;
    if s == [] || room == 0 {
      UrlEnd(s, room);
    } else {
      UrlUnfold(s, room);
    }
    if s != [] {
      var n := if s[0] == PERCENT then 3 else 1;
      if n == 3 {
        EscapeValue(s);
      }
      DecodeEncodes(s[n..], p[1..], if room == 0 then 0 else room - 1);
      assert s == s[..n] + s[n..];
      assert p == [p[0]] + p[1..];
      assert AMP !in s[..n] by { NotAmp(s, n); }
      assert |p| > room > 0 ==> p[..room] == [p[0]] + p[1..][..room - 1];
    }
  }

  /** A percent sign without two hex digits after it stands for itself. */
  lemma StrayPercent(s: seq<byte>, room: nat)
    requires s != [] && s[0] == '%' as int && room > 0 && (|s| < 3 || !AllHex(s[1..3]))
    ensures UrlDecoded(s, room) == ['%' as int] + UrlDecoded(s[1..], room - 1)
  {
    if |s| > 2 && IsHex(s[1]) && IsHex(s[2]) {
      assert AllHex(s[1..3]);
    }
  }

  lemma NotAmp(s: seq<byte>, n: nat)
    requires n <= |s| && s != [] && s[0] != AMP && (n == 1 || (n == 3 && AllHex(s[1..3])))
    ensures AMP !in s[..n]
  {
    if n == 3 {
      assert IsHex(s[1..3][0]) && IsHex(s[1..3][1]);
    }
  }

  /** Encoding every byte as `%XX` is always possible. */
  function PercentEncoded(p: seq<byte>): seq<byte>
  {
    if p == [] then [] else [PERCENT, HexDigit(p[0] / 16), HexDigit(p[0])] + PercentEncoded(p[1..])
  }

  lemma {:induction false} PercentEncodes(p: seq<byte>)
    ensures Encodes(PercentEncoded(p), p)
  {
    if p != [] {
      var hi, lo := HexDigit(p[0] / 16), HexDigit(p[0]);
      ByteDigits(p[0], hi, lo);
      PercentEncodes(p[1..]);
      var s := PercentEncoded(p);
      assert s[3..] == PercentEncoded(p[1..]) && s[1..3] == [hi, lo];
      EscapeValue(s);
    }
  }

  /** `find_form_value` over the `&`-separated pairs. */
  function FirstValue(pairs: seq<seq<byte>>, key: seq<byte>): Option<seq<byte>>
  {
    if pairs == [] then None
    else
      var kv := SplitOnce(pairs[0], [EQUALS]);
      if kv.Some? && kv.value.0 == key then Some(kv.value.1) else FirstValue(pairs[1..], key)
  }

  function FormValue(body: seq<byte>, key: seq<byte>): Option<seq<byte>>
  {
    FirstValue(Split(body, [AMP]), key)
  }

  const USER: seq<byte> := Ascii("user")
  const PASS: seq<byte> := Ascii("pass")

  /** The form as posted; further fields may follow. */
  function Form(user: seq<byte>, pass: seq<byte>, more: seq<byte>): seq<byte>
  {
    Ascii("user=") + user + (Ascii("&pass=") + pass + more)
  }

  lemma FirstPair(key: seq<byte>, value: seq<byte>, rest: seq<byte>)
    requires AMP !in key && EQUALS !in key && AMP !in value
    requires rest == [] || rest[0] == AMP
    ensures var s := key + [EQUALS] + value + rest;
            && Split(s, [AMP])[0] == key + [EQUALS] + value
            && (rest != [] ==> Split(s, [AMP])[1..] == Split(rest[1..], [AMP]))
    ensures SplitOnce(key + [EQUALS] + value, [EQUALS]) == Some((key, value))
  {
    var p := key + [EQUALS] + value;
    SplitOnceByte(key, EQUALS, value);
    if rest == [] {
      FindNoByte(p, AMP);
      assert p + rest == p;
    } else {
      SplitOnceByte(p, AMP, rest[1..]);
      assert p + rest == p + [AMP] + rest[1..];
    }
  }

  lemma FormFields(user: seq<byte>, pass: seq<byte>, more: seq<byte>)
    requires AMP !in user && AMP !in pass && (more == [] || more[0] == AMP)
    ensures FormValue(Form(user, pass, more), USER) == Some(user)
    ensures FormValue(Form(user, pass, more), PASS) == Some(pass)
  {
    hide SplitOnce, Split;
    var second := PASS + [EQUALS] + pass + more;
    var body := Form(user, pass, more);
    assert Ascii("user=") == USER + [EQUALS] && Ascii("&pass=") == [AMP] + (PASS + [EQUALS]);
    assert body == USER + [EQUALS] + user + ([AMP] + second);
    FirstPair(USER, user, [AMP] + second);
    assert ([AMP] + second)[1..] == second;
    FirstPair(PASS, pass, more);
    assert USER[0] != PASS[0];
    var pairs := Split(body, [AMP]);
    assert pairs[1..] == Split(second, [AMP]);
    assert FirstValue(Split(second, [AMP]), PASS) == Some(pass);
  }

  // ---- Stored credentials ---------------------------------------------------------------------

  const AUTH_CONFIG_MAGIC: nat := 0xA071_0101

  const ZERO_DIGEST: seq<bv8> := [0, 0, 0, 0, 0, 0, 0, 0, 0, 0, 0, 0, 0, 0, 0, 0,
                                  0, 0, 0, 0, 0, 0, 0, 0, 0, 0, 0, 0, 0, 0, 0, 0]

  type digest = s: seq<bv8> | |s| == 32 witness ZERO_DIGEST

  /** `salted_hash`, left arbitrary. */
  type Hash = (seq<byte>, seq<byte>) -> digest

  datatype Credentials = Credentials(
    magic: nat, user: seq<byte>, userLen: nat, hasPass: nat, salt: seq<byte>, passHash: digest)

  const NO_DIGEST: digest := ZERO_DIGEST

  const NEW_CREDENTIALS: Credentials := Credentials(0, Zeros(32), 0, 0, Zeros(16), NO_DIGEST)

  predicate Shaped(c: Credentials)
  {
    |c.user| == 32 && c.userLen <= 32 && |c.salt| == 16
  }

  predicate IsSet(c: Credentials)
  {
    c.magic == AUTH_CONFIG_MAGIC && c.userLen > 0 && c.hasPass != 0
  }

  function Stored(c: Credentials, user: seq<byte>, pass: seq<byte>, salt: seq<byte>, hash: Hash): (r: Credentials)
    requires Shaped(c) && |salt| == 16
    ensures Shaped(r)
  {
    if user == [] || pass == [] then Credentials(AUTH_CONFIG_MAGIC, Zeros(32), 0, 0, Zeros(16), NO_DIGEST)
    else
      var n := if |user| < 32 then |user| else 32;
      Credentials(AUTH_CONFIG_MAGIC, user[..n] + c.user[n..], n, 1, salt, hash(salt, pass))
  }

  predicate Verifies(c: Credentials, user: seq<byte>, pass: seq<byte>, hash: Hash)
    requires Shaped(c)
  {
    !IsSet(c) || (user == c.user[..c.userLen] && hash(c.salt, pass) == c.passHash)
  }

  /** `ct_eq` decides equality without an early exit. */
  method CtEq(a: digest, b: digest) returns (r: bool)
    ensures r <==> a == b
  {
    var diff: bv8 := 0;
    for i := 0 to 32
      invariant diff == 0 <==> a[..i] == b[..i]
    {
      assert a[..i + 1] == a[..i] + [a[i]] && b[..i + 1] == b[..i] + [b[i]];
      OrXor(diff, a[i], b[i]);
      diff := diff | (a[i] ^ b[i]);
    }
    assert a[..32] == a && b[..32] == b;
    return diff == 0;
  }

  lemma OrXor(d: bv8, x: bv8, y: bv8)
    ensures d | (x ^ y) == 0 <==> d == 0 && x == y
  {
  }

  /** `AuthConfig`. */
  class AuthConfig {
    var magic: nat
    var user: seq<byte>
    var userLen: nat
    var hasPass: nat
    var salt: seq<byte>
    var passHash: digest

    ghost function Record(): Credentials
      reads this
    {
      Credentials(magic, user, userLen, hasPass, salt, passHash)
    }

    constructor ()
      ensures Record() == NEW_CREDENTIALS
    {
      magic, user, userLen, hasPass, salt, passHash := 0, Zeros(32), 0, 0, Zeros(16), NO_DIGEST;
    }

    /** `set`; `drawn` is what the random generator delivers. */
    method Set(name: seq<byte>, password: seq<byte>, drawn: seq<byte>, hash: Hash)
      requires Shaped(Record()) && |drawn| == 16
      modifies this
      ensures Record() == Stored(old(Record()), name, password, drawn, hash)
    {
      magic := AUTH_CONFIG_MAGIC;
      if name == [] || password == [] {
        userLen, hasPass := 0, 0;
        user, salt, passHash := Zeros(32), Zeros(16), NO_DIGEST;
        return;
      }
      userLen := if |name| < 32 then |name| else 32;
      user := name[..userLen] + user[userLen..];
      salt := drawn;
      passHash := hash(salt, password);
      hasPass := 1;
    }

    method Verify(name: seq<byte>, password: seq<byte>, hash: Hash) returns (ok: bool)
      requires Shaped(Record())
      ensures ok <==> Verifies(Record(), name, password, hash)
    {
      if !(magic == AUTH_CONFIG_MAGIC && userLen > 0 && hasPass != 0) {
        return true;
      }
      if name != user[..userLen] {
        return false;
      }
      ok := CtEq(hash(salt, password), passHash);
    }
  }

  /** `save_auth` up to the flash write: the decoded credentials, or rejection of a user name
      that Basic authentication could never send back. */
  function SaveAuth(body: seq<byte>, salt: seq<byte>, hash: Hash): Option<Credentials>
    requires |salt| == 16
  {
    var u := match FormValue(body, USER) case None => [] case Some(v) => UrlDecoded(v, 32);
    var p := match FormValue(body, PASS) case None => [] case Some(v) => UrlDecoded(v, 64);
    if COLON in u then None else Some(Stored(NEW_CREDENTIALS, u, p, salt, hash))
  }

  // ---- The request's credentials --------------------------------------------------------------

  /** `str::lines`: split at LF, dropping a CR before it; no empty last line. */
  function Lines(s: seq<byte>): seq<seq<byte>>
    decreases |s|
  {
    if s == [] then []
    else match SplitOnce(s, [LF])
      case None => [s]
      case Some((a, b)) => [if a != [] && a[|a| - 1] == CR then a[..|a| - 1] else a] + Lines(b)
  }

  const KEY: seq<byte> := Ascii("Authorization")
  const KEY_LOWER: seq<byte> := Ascii("authorization")
  const SCHEME: seq<byte> := Ascii("Basic ")
  const SCHEME_LOWER: seq<byte> := Ascii("basic ")

  function StripPrefix(s: seq<byte>, p: seq<byte>): Option<seq<byte>>
  {
    if |p| <= |s| && s[..|p|] == p then Some(s[|p|..]) else None
  }

  /** The token a header line carries, if it is a Basic authorization line. */
  function LineToken(line: seq<byte>): Option<seq<byte>>
  {
    match SplitOnce(line, [COLON])
    case None => None
    case Some((k, v)) =>
      if !SameIgnoringCase(Trim(k), KEY_LOWER) then None
      else if StripPrefix(Trim(v), SCHEME).Some? then StripPrefix(Trim(v), SCHEME)
      else StripPrefix(Trim(v), SCHEME_LOWER)
  }

  /** The first token before the blank line. */
  function FirstToken(lines: seq<seq<byte>>): Option<seq<byte>>
  {
    if lines == [] || lines[0] == [] then None
    else if LineToken(lines[0]).Some? then LineToken(lines[0])
    else FirstToken(lines[1..])
  }

  function BasicToken(request: seq<byte>): Option<seq<byte>>
  {
    FirstToken(Lines(request))
  }

  /** The decoded `user:password`, if the token has that form. */
  function Claimed(request: seq<byte>): Option<(seq<byte>, seq<byte>)>
  {
    match BasicToken(request)
    case None => None
    case Some(token) =>
      match Base64.DecodeText(token, 128)
      case None => None
      case Some(creds) => if IsUtf8(creds) then SplitOnce(creds, [COLON]) else None
  }

  predicate Authorized(request: seq<byte>, c: Credentials, bootHeld: bool, hash: Hash)
    requires Shaped(c)
  {
    bootHeld || !IsSet(c) ||
    (Claimed(request).Some? && Verifies(c, Claimed(request).value.0, Claimed(request).value.1, hash))
  }

  // ---- The chain ------------------------------------------------------------------------------

  lemma LineOfRequest(line: seq<byte>, rest: seq<byte>)
    requires LF !in line
    ensures Lines(line + [CR, LF] + rest) == [line] + Lines(rest)
  {
    var s := line + [CR, LF] + rest;
    assert s == (line + [CR]) + [LF] + rest;
    SplitOnceByte(line + [CR], LF, rest);
    assert (line + [CR])[..|line|] == line;
  }

  /** A line may also end in LF alone, or be the last. */
  lemma PlainLines(line: seq<byte>, rest: seq<byte>)
    requires LF !in line
    ensures (line == [] || line[|line| - 1] != CR) ==> Lines(line + [LF] + rest) == [line] + Lines(rest)
    ensures line != [] ==> Lines(line) == [line]
  {
    SplitOnceByte(line, LF, rest);
    FindNoByte(line, LF);
  }

  /** The line is `Authorization` in any case, a colon, `Basic` or `basic`, a blank and the token,
      with any white space around the name and the value. */
  ghost predicate AuthLine(line: seq<byte>, token: seq<byte>)
  {
    exists a, key, b, c, scheme, d :: AuthParts(a, key, b, c, scheme, d) && line == AuthText(a, key, b, c, scheme, token, d)
  }

  ghost predicate AuthParts(a: seq<byte>, key: seq<byte>, b: seq<byte>, c: seq<byte>, scheme: seq<byte>, d: seq<byte>)
  {
    && Blank(a) && Blank(b) && Blank(c) && Blank(d)
    && SameIgnoringCase(key, Ascii("authorization")) && (scheme == Ascii("Basic ") || scheme == Ascii("basic "))
  }

  function AuthText(a: seq<byte>, key: seq<byte>, b: seq<byte>, c: seq<byte>, scheme: seq<byte>, token: seq<byte>, d: seq<byte>): seq<byte>
  {
    a + key + b + [':' as int] + (c + (scheme + token) + d)
  }

  lemma NameIsInk(key: seq<byte>)
    requires SameIgnoringCase(key, Ascii("authorization"))
    ensures |key| == 13 && 32 < key[0] < 0x80 && 32 < key[12] < 0x80 && COLON !in key && LF !in key
  {
    var k := Ascii("authorization");
    forall i | 0 <= i < |key| ensures 32 < key[i] < 0x80 && key[i] != COLON {
      CaseOnly(key[i], k[i]);
    }
  }

  lemma SchemeStripped(scheme: seq<byte>, token: seq<byte>)
    requires scheme == Ascii("Basic ") || scheme == Ascii("basic ")
    ensures |scheme| == 6 && 32 < scheme[0] < 0x80
    ensures var v := scheme + token;
            (if StripPrefix(v, SCHEME).Some? then StripPrefix(v, SCHEME) else StripPrefix(v, SCHEME_LOWER)) == Some(token)
  {
    var v := scheme + token;
    assert v[..6] == scheme && v[6..] == token;
    assert SCHEME[0] != SCHEME_LOWER[0];
  }

  lemma PartsToken(a: seq<byte>, key: seq<byte>, b: seq<byte>, c: seq<byte>, scheme: seq<byte>, token: seq<byte>, d: seq<byte>)
    requires AuthParts(a, key, b, c, scheme, d) && token != [] && 32 < token[|token| - 1] < 0x80
    ensures AuthText(a, key, b, c, scheme, token, d) != []
    ensures LineToken(AuthText(a, key, b, c, scheme, token, d)) == Some(token)
  {
    hide Ascii, SplitOnce, Trim, SameIgnoringCase, StripPrefix, Blank;
    NameIsInk(key);
    SchemeStripped(scheme, token);
    BlankIsClear(a, COLON);
    BlankIsClear(b, COLON);
    SplitOnceByte(a + key + b, COLON, c + (scheme + token) + d);
    TrimBlanks(a, key, b);
    TrimBlanks(c, scheme + token, d);
  }

  /** Every such line with a token that does not end in white space gives that token ... */
  lemma TokenOfLine(line: seq<byte>, token: seq<byte>)
    requires AuthLine(line, token) && token != [] && 32 < token[|token| - 1] < 0x80
    ensures line != [] && LineToken(line) == Some(token)
  {
    hide LineToken, AuthParts, AuthText;
    var a, key, b, c, scheme, d :| AuthParts(a, key, b, c, scheme, d) && line == AuthText(a, key, b, c, scheme, token, d);
    PartsToken(a, key, b, c, scheme, token, d);
  }

  /** ... and only such lines give one. */
  lemma TokenIsFromLine(line: seq<byte>)
    requires LineToken(line).Some?
    ensures AuthLine(line, LineToken(line).value)
  {
    hide Ascii, SplitOnce, Trim, SameIgnoringCase, Blank;
    var (k, v) := SplitOnce(line, [COLON]).value;
    var token := LineToken(line).value;
    TrimSound(k);
    TrimSound(v);
    var a, b :| Blank(a) && Blank(b) && k == a + Trim(k) + b;
    var c, d :| Blank(c) && Blank(d) && v == c + Trim(v) + d;
    var scheme := Trim(v)[..|Trim(v)| - |token|];
    assert Trim(v) == scheme + token;
    assert AuthParts(a, Trim(k), b, c, scheme, d);
    assert line == AuthText(a, Trim(k), b, c, scheme, token, d);
  }

  /** Lines that carry no token. */
  predicate NoToken(lines: seq<seq<byte>>)
  {
    forall i :: 0 <= i < |lines| ==> lines[i] != [] && LF !in lines[i] && LineToken(lines[i]).None?
  }

  /** A request with this line after other header lines. */
  function RequestWith(before: seq<seq<byte>>, line: seq<byte>, rest: seq<byte>): seq<byte>
  {
    HeaderLines(before) + (line + [CR, LF] + rest)
  }

  /** The first line that gives a token decides; none is looked for after a blank line. */
  lemma {:induction false} TokenOfRequest(before: seq<seq<byte>>, line: seq<byte>, rest: seq<byte>)
    requires NoToken(before) && LF !in line && (line == [] || LineToken(line).Some?)
    ensures BasicToken(RequestWith(before, line, rest)) == if line == [] then None else LineToken(line)
  {
    hide LineToken, Lines;
    if before == [] {
      LineOfRequest(line, rest);
      assert HeaderLines(before) + (line + [CR, LF] + rest) == line + [CR, LF] + rest;
    } else {
      var more := before[1..];
      TokenOfRequest(more, line, rest);
      var tail := RequestWith(more, line, rest);
      LineOfRequest(before[0], tail);
      assert RequestWith(before, line, rest) == before[0] + [CR, LF] + tail;
      assert ([before[0]] + Lines(tail))[1..] == Lines(tail);
    }
  }

  /** What a request can claim: UTF-8 text of at most 128 bytes, cut at its first colon. */
  lemma ClaimShape(request: seq<byte>)
    requires Claimed(request).Some?
    ensures var (u, p) := Claimed(request).value;
            ':' as int !in u && IsUtf8(u + [':' as int] + p) && |u| + 1 + |p| <= 128
  {
    hide BasicToken, IsUtf8, Base64.Decoded, SplitOnce;
    var t := Base64.Stem(BasicToken(request).value);
    Base64.DecodedLength(Base64.Values(t));
    FirstColon(Base64.Decoded(Base64.Values(t)));
  }

  lemma FirstColon(s: seq<byte>)
    requires SplitOnce(s, [COLON]).Some?
    ensures COLON !in SplitOnce(s, [COLON]).value.0
  {
    var i := Find(s, [COLON]).value;
    forall j: nat | j < i ensures s[j] != COLON {
      assert !MatchAt(s, [COLON], j);
      assert s[j..j + 1] == [s[j]];
    }
  }

  /** Whoever holds the button, or finds no login set, is let in. */
  lemma OpenAccess(request: seq<byte>, c: Credentials, hash: Hash)
    requires Shaped(c)
    ensures Authorized(request, c, true, hash)
    ensures !IsSet(c) ==> Authorized(request, c, false, hash)
  {
  }

  lemma LetterRange(c: byte)
    ensures Base64.Value(c).Some? || c == Base64.PAD ==> 32 < c < 0x80 && c != LF
  {
  }

  lemma TokenText(p: seq<byte>, pad: nat)
    requires p != []
    ensures var t := Base64.EncodeText(p, pad);
            t != [] && LF !in t && 32 < t[|t| - 1] < 0x80
  {
    hide Base64.Encoded, Base64.Value;
    var t := Base64.EncodeText(p, pad);
    assert Base64.Encoded(p) != [] by { Base64.DecodeEncoded(p); assert Base64.Decoded([]) == []; }
    forall i | 0 <= i < |t| ensures 32 < t[i] < 0x80 && t[i] != LF {
      LetterRange(t[i]);
    }
  }

  /** Credentials posted through the form survive the whole chain: whatever encoding the
      browser chose, whatever salt and hash, whatever other headers come first and however the
      authorization line is spelled, a request that sends them with Basic authentication is
      accepted. */
  lemma CredentialsAccepted(
      user: seq<byte>, pass: seq<byte>, userText: seq<byte>, passText: seq<byte>, more: seq<byte>,
      salt: seq<byte>, hash: Hash, before: seq<seq<byte>>, line: seq<byte>, pad: nat, rest: seq<byte>)
    requires IsUtf8(user) && IsUtf8(pass) && ':' as int !in user
    requires 1 <= |user| <= 32 && 1 <= |pass| <= 64
    requires Encodes(userText, user) && Encodes(passText, pass) && (more == [] || more[0] == '&' as int)
    requires |salt| == 16 && NoToken(before)
    requires AuthLine(line, Base64.EncodeText(user + [':' as int] + pass, pad)) && LF !in line
    ensures var c := SaveAuth(Form(userText, passText, more), salt, hash);
            && c.Some? && IsSet(c.value)
            && Authorized(RequestWith(before, line, rest), c.value, false, hash)
  {
    hide Form, FormValue, UrlDecoded, Encodes, RequestWith, BasicToken, Base64.EncodeText, Base64.DecodeText, IsUtf8, SplitOnce,
         AuthLine, LineToken;
    DecodeEncodes(userText, user, 32);
    DecodeEncodes(passText, pass, 64);
    FormFields(userText, passText, more);
    var creds := user + [COLON] + pass;
    TokenText(creds, pad);
    TokenOfLine(line, Base64.EncodeText(creds, pad));
    TokenOfRequest(before, line, rest);
    Base64.RoundTrip(creds, pad, 128);
    CredsAreUtf8(user, pass);
    SplitOnceByte(user, COLON, pass);
    assert (user[..|user|] + Zeros(32)[|user|..])[..|user|] == user;
  }

  lemma CredsAreUtf8(user: seq<byte>, pass: seq<byte>)
    requires IsUtf8(user) && IsUtf8(pass)
    ensures IsUtf8(user + [COLON] + pass)
  {
    AsciiIsUtf8([COLON]);
    Utf8Concat(user, [COLON]);
    Utf8Concat(user + [COLON], pass);
  }

  /** What becomes of a posted form: it is rejected exactly if the user name, cut to 32 bytes, holds
      a colon; otherwise the login is set exactly if neither field is blank, and off for everybody
      if one is. */
  lemma SaveAuthOutcome(user: seq<byte>, pass: seq<byte>, userText: seq<byte>, passText: seq<byte>, more: seq<byte>,
                        salt: seq<byte>, hash: Hash, request: seq<byte>)
    requires Encodes(userText, user) && Encodes(passText, pass) && (more == [] || more[0] == '&' as int) && |salt| == 16
    ensures var c := SaveAuth(Form(userText, passText, more), salt, hash);
            && (c.None? <==> ':' as int in (if |user| <= 32 then user else user[..32]))
            && (c.Some? ==> (IsSet(c.value) <==> user != [] && pass != []))
            && (c.Some? && (user == [] || pass == []) ==> Authorized(request, c.value, false, hash))
  {
    hide Form, FormValue, UrlDecoded, Encodes, Claimed;
    DecodeEncodes(userText, user, 32);
    DecodeEncodes(passText, pass, 64);
    FormFields(userText, passText, more);
  }

  /** Switching the login off leaves nothing of the old one behind. */
  lemma NothingKept(c: Credentials, user: seq<byte>, pass: seq<byte>, salt: seq<byte>, hash: Hash)
    requires Shaped(c) && |salt| == 16 && (user == [] || pass == [])
    ensures var r := Stored(c, user, pass, salt, hash);
            && r.userLen == 0 && r.hasPass == 0 && (forall i :: 0 <= i < 32 ==> r.user[i] == 0)
            && (forall i :: 0 <= i < 16 ==> r.salt[i] == 0) && (forall i :: 0 <= i < 32 ==> r.passHash[i] == 0)
  {
  }

  /** A form without one of the fields switches the login off. */
  lemma MissingField(body: seq<byte>, salt: seq<byte>, hash: Hash)
    requires |salt| == 16 && (FormValue(body, Ascii("user")).None? || FormValue(body, Ascii("pass")).None?)
    ensures var c := SaveAuth(body, salt, hash); c.Some? ==> !IsSet(c.value)
  {
    hide FormValue, UrlDecoded;
  }

  /** Conversely, once credentials are set and the button is not held, a request is accepted
      exactly when it claims that very user name and a password with the stored hash, for any
      salt and hash function. */
  lemma OnlyStoredCredentials(user: seq<byte>, pass: seq<byte>, salt: seq<byte>, hash: Hash, request: seq<byte>)
    requires 1 <= |user| <= 32 && pass != [] && |salt| == 16
    ensures var c, claim := Stored(NEW_CREDENTIALS, user, pass, salt, hash), Claimed(request);
            Authorized(request, c, false, hash) <==>
              claim.Some? && claim.value.0 == user && hash(salt, claim.value.1) == hash(salt, pass)
  {
    hide Claimed;
    var c := Stored(NEW_CREDENTIALS, user, pass, salt, hash);
    assert c.user[..c.userLen] == user[..|user|] == user;
  }

  /** So, as long as the password a request claims does not collide with the stored one (as no
      password does under a hash that separates passwords), exactly the stored credentials are
      accepted. */
  lemma StoredCredentialsExactly(user: seq<byte>, pass: seq<byte>, salt: seq<byte>, hash: Hash, request: seq<byte>)
    requires 1 <= |user| <= 32 && pass != [] && |salt| == 16
    requires var claim := Claimed(request);
             claim.Some? && hash(salt, claim.value.1) == hash(salt, pass) ==> claim.value.1 == pass
    ensures var c := Stored(NEW_CREDENTIALS, user, pass, salt, hash);
            Authorized(request, c, false, hash) <==> Claimed(request) == Some((user, pass))
  {
    hide Claimed, Stored, Authorized;
    OnlyStoredCredentials(user, pass, salt, hash, request);
  }
}
