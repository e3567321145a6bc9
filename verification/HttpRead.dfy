/** The request reader of src/http.rs: it keeps reading until the Content-Length body is in
    (section 6 of RFC 9112), whatever the TCP segmentation. */
module HttpRead {
  import opened Bytes
  import opened Text
  import opened Unicode

  const BUFFER: nat := 1024

  const BLANK_LINE: seq<byte> := [CR, LF, CR, LF]

  const LENGTH_KEY: seq<byte> := Ascii("content-length")

  /** The value a header line gives, if it is a usable Content-Length line. */
  function LineLength(line: seq<byte>): Option<nat>
  {
    match SplitOnce(line, [COLON])
    case None => None
    case Some((k, v)) =>
      if SameIgnoringCase(Trim(k), LENGTH_KEY) then ParseUnsigned(Trim(v), U32) else None
  }

  function FirstLength(lines: seq<seq<byte>>): Option<nat>
  {
    if lines == [] then None
    else if LineLength(lines[0]).Some? then LineLength(lines[0])
    else FirstLength(lines[1..])
  }

  /** `content_length`, on a target with 32-bit `usize`. */
  function ContentLength(headers: seq<byte>): Option<nat>
  {
    if IsUtf8(headers) then FirstLength(Split(headers, [CR, LF])) else None
  }

  /** `need`: where the request ends, once its blank line is in the buffer. */
  function Need(got: seq<byte>): (n: Option<nat>)
    ensures n.Some? ==> n.value <= BUFFER
  {
    match Find(got, BLANK_LINE)
    case None => None
    case Some(i) =>
      var body := match ContentLength(got[..i + 4]) case None => 0 case Some(n) => n;
      var end := if i + 4 + body < U32 then i + 4 + body else U32 - 1;
      Some(if end < BUFFER then end else BUFFER)
  }

  predicate Complete(got: seq<byte>)
  {
    |got| >= BUFFER || (Need(got).Some? && |got| >= Need(got).value)
  }

  // ---- First-match stability ------------------------------------------------------------------

  predicate IsPrefix(a: seq<byte>, b: seq<byte>) { |a| <= |b| && b[..|a|] == a }

  lemma MatchInPrefix(a: seq<byte>, b: seq<byte>, j: nat)
    requires IsPrefix(a, b) && j + 4 <= |a|
    ensures MatchAt(a, BLANK_LINE, j) <==> MatchAt(b, BLANK_LINE, j)
  {
    assert a[j..j + 4] == b[j..j + 4];
  }

  /** Once the blank line is seen it stays the first one, and `need` never changes. */
  lemma NeedStable(a: seq<byte>, b: seq<byte>)
    requires IsPrefix(a, b) && Need(a).Some?
    ensures Need(b) == Need(a)
  {
    hide ContentLength;
    var i := Find(a, BLANK_LINE).value;
    MatchInPrefix(a, b, i);
    forall j: nat | j < i ensures !MatchAt(b, BLANK_LINE, j) {
      MatchInPrefix(a, b, j);
    }
    FindIs(b, BLANK_LINE, i);
    assert a[..i + 4] == b[..i + 4];
  }

  /** `need` is known as soon as the buffer reaches past the blank line. */
  lemma NeedByItsEnd(b: seq<byte>, k: nat)
    requires Need(b).Some? && Need(b).value <= k <= |b| <= BUFFER
    ensures Need(b[..k]) == Need(b)
  {
    hide ContentLength;
    var i := Find(b, BLANK_LINE).value;
    var a := b[..k];
    assert i + 4 <= k;
    MatchInPrefix(a, b, i);
    forall j: nat | j < i ensures !MatchAt(a, BLANK_LINE, j) {
      MatchInPrefix(a, b, j);
    }
    FindIs(a, BLANK_LINE, i);
    assert a[..i + 4] == b[..i + 4];
  }

  // ---- The loop -------------------------------------------------------------------------------

  /** What arrives: segments in order, none empty. */
  predicate Segments(segs: seq<seq<byte>>)
  {
    forall i :: 0 <= i < |segs| ==> segs[i] != []
  }

  function Min(a: nat, b: nat): nat { if a < b then a else b }

  /** One read: at most `room` bytes of the first segment. */
  function Rest(segs: seq<seq<byte>>, room: nat): seq<seq<byte>>
    requires segs != []
  {
    if |segs[0]| <= room then segs[1..] else [segs[0][room..]] + segs[1..]
  }

  lemma RestIsShorter(segs: seq<seq<byte>>, room: nat)
    requires Segments(segs) && segs != [] && room > 0
    ensures var n := Min(room, |segs[0]|);
            && n > 0 && Segments(Rest(segs, room))
            && |Flat(Rest(segs, room))| < |Flat(segs)|
            && Flat(segs) == segs[0][..n] + Flat(Rest(segs, room))
  {
    hide Flat;
    var a, more := segs[0], segs[1..];
    FlatCons(a, more);
    assert segs == [a] + more;
    if |a| > room {
      FlatCons(a[room..], more);
      assert a == a[..room] + a[room..];
      assert a[..room] + (a[room..] + Flat(more)) == a + Flat(more);
    } else {
      assert a[..|a|] == a;
    }
  }

  /** The buffer when the loop ends, if the connection does not fail. */
  function Gather(got: seq<byte>, segs: seq<seq<byte>>): (r: seq<byte>)
    requires Segments(segs)
    decreases |Flat(segs)|
  {
    if Complete(got) || segs == [] then got
    else
      var room := BUFFER - |got|;
      RestIsShorter(segs, room);
      Gather(got + segs[0][..Min(room, |segs[0]|)], Rest(segs, room))
  }

  /** Where reading must not stop before: the end of the request, or the buffer's. */
  function Target(s: seq<byte>): (n: nat)
    ensures n <= BUFFER
  {
    match Need(s[..Min(|s|, BUFFER)])
    case None => BUFFER
    case Some(n) => n
  }

  /** The loop reads a prefix of what was sent, never stops before the target while there is
      more, and never overruns the buffer. */
  lemma {:induction false} GatherBounds(got: seq<byte>, segs: seq<seq<byte>>)
    requires Segments(segs) && |got| <= BUFFER
    ensures var s, r := got + Flat(segs), Gather(got, segs);
            && IsPrefix(r, s) && |r| <= 1024
            && Min(Target(s), |s|) <= |r|
            && (!Complete(r) ==> r == s)
    decreases |Flat(segs)|
  {
    hide Need, Flat, Gather, Rest, Target;
    var s, r := got + Flat(segs), Gather(got, segs);
    GatherStep(got, segs);
    if Complete(got) {
      TargetReached(got, s);
    } else if segs == [] {
      FlatNone();
      assert s == got;
    } else {
      var room := BUFFER - |got|;
      RestIsShorter(segs, room);
      var chunk := segs[0][..Min(room, |segs[0]|)];
      GatherBounds(got + chunk, Rest(segs, room));
      assert s == got + chunk + Flat(Rest(segs, room));
    }
  }

  lemma FlatNone()
    ensures Flat([]) == []
  {
  }

  lemma TargetReached(r: seq<byte>, s: seq<byte>)
    requires IsPrefix(r, s) && |r| <= BUFFER && Complete(r)
    ensures Target(s) <= |r|
  {
    hide Need;
    if |r| < BUFFER {
      NeedStable(r, s[..Min(|s|, BUFFER)]);
    }
  }

  /** Every split of the same bytes ends with the same buffer, provided nothing follows the
      request; then the buffer holds everything sent. */
  lemma WholeRequestRead(segs: seq<seq<byte>>)
    requires Segments(segs) && |Flat(segs)| <= Target(Flat(segs))
    ensures Gather([], segs) == Flat(segs)
  {
    GatherBounds([], segs);
    assert [] + Flat(segs) == Flat(segs);
  }

  lemma RequestRead(headers: seq<byte>, body: seq<byte>, segs: seq<seq<byte>>)
    requires Segments(segs) && Flat(segs) == headers + body && |headers + body| <= 1024
    requires Need(headers) == Some(|headers + body|)
    ensures Gather([], segs) == headers + body
  {
    hide Need;
    var s := headers + body;
    NeedStable(headers, s);
    assert s[..|s|] == s;
    WholeRequestRead(segs);
  }

  /** A request that is exactly its headers and its Content-Length body, and fits, is read whole
      under every split. */
  lemma ExactRequestRead(headers: seq<byte>, body: seq<byte>, segs: seq<seq<byte>>)
    requires Segments(segs) && Flat(segs) == headers + body && |headers + body| <= 1024
    requires Find(headers, BLANK_LINE) == Some(|headers| - 4)
    requires |body| == match ContentLength(headers) case None => 0 case Some(n) => n
    ensures Gather([], segs) == headers + body
  {
    hide ContentLength, Gather, Flat;
    assert headers[..|headers|] == headers;
    RequestRead(headers, body, segs);
  }

  /** `v` is a decimal number, perhaps with a `+`. */
  predicate Number(v: seq<byte>, n: nat)
  {
    var d := DropPlus(v);
    d != [] && AllDigits(d) && DecimalValue(d) == n
  }

  /** The line is `Content-Length` in any case, a colon and the number, with any white space around
      the name and the number. */
  ghost predicate GivesLength(line: seq<byte>, n: nat)
  {
    exists a: seq<byte>, key: seq<byte>, b: seq<byte>, c: seq<byte>, v: seq<byte>, d: seq<byte> ::
      && Blank(a) && Blank(b) && Blank(c) && Blank(d)
      && line == a + key + b + [':' as int] + (c + v + d)
      && SameIgnoringCase(key, Ascii("content-length")) && Number(v, n)
  }

  lemma KeyIsInk(key: seq<byte>)
    requires SameIgnoringCase(key, Ascii("content-length"))
    ensures |key| == 14 && 32 < key[0] < 0x80 && 32 < key[13] < 0x80 && COLON !in key
  {
    var k := Ascii("content-length");
    forall i | 0 <= i < |key| ensures 32 < key[i] < 0x80 && key[i] != COLON {
      CaseOnly(key[i], k[i]);
    }
  }

  lemma NumberIsInk(v: seq<byte>, n: nat)
    requires Number(v, n)
    ensures v != [] && 32 < v[0] < 0x80 && 32 < v[|v| - 1] < 0x80
  {
    var d := DropPlus(v);
    assert IsDigit(d[0]) && IsDigit(d[|d| - 1]);
  }

  /** Exactly such lines are read as a length, if it is below 2^32. */
  lemma LineLengthIff(line: seq<byte>, n: nat)
    ensures LineLength(line) == Some(n) <==> n < 0x1_0000_0000 && GivesLength(line, n)
  {
    hide LineLength, GivesLength;
    if LineLength(line) == Some(n) {
      LengthSound(line, n);
    } else if n < 0x1_0000_0000 && GivesLength(line, n) {
      LengthRead(line, n);
    }
  }

  lemma LengthSound(line: seq<byte>, n: nat)
    requires LineLength(line) == Some(n)
    ensures n < U32 && GivesLength(line, n)
  {
    hide Trim, SplitOnce, DecimalValue, Blank, SameIgnoringCase, Number, Ascii, ParseUnsigned, GivesLength;
    var (k, v) := SplitOnce(line, [COLON]).value;
    TrimSound(k);
    TrimSound(v);
    var a, b :| Blank(a) && Blank(b) && k == a + Trim(k) + b;
    var c, d :| Blank(c) && Blank(d) && v == c + Trim(v) + d;
    IsNumber(Trim(v), n);
    PartsGive(a, Trim(k), b, c, Trim(v), d, n);
  }

  lemma PartsGive(a: seq<byte>, key: seq<byte>, b: seq<byte>, c: seq<byte>, v: seq<byte>, d: seq<byte>, n: nat)
    requires Blank(a) && Blank(b) && Blank(c) && Blank(d)
    requires SameIgnoringCase(key, Ascii("content-length")) && Number(v, n)
    ensures GivesLength(a + key + b + [COLON] + (c + v + d), n)
  {
    hide Blank, SameIgnoringCase, Number, Ascii;
  }

  lemma IsNumber(v: seq<byte>, n: nat)
    ensures ParseUnsigned(v, U32) == Some(n) <==> n < U32 && Number(v, n)
  {
  }

  lemma LengthRead(line: seq<byte>, n: nat)
    requires n < U32 && GivesLength(line, n)
    ensures LineLength(line) == Some(n)
  {
    hide LineLength, DecimalValue, Blank, SameIgnoringCase, Number, Ascii;
    var a: seq<byte>, key: seq<byte>, b: seq<byte>, c: seq<byte>, v: seq<byte>, d: seq<byte> :|
      && Blank(a) && Blank(b) && Blank(c) && Blank(d)
      && line == a + key + b + [':' as int] + (c + v + d)
      && SameIgnoringCase(key, Ascii("content-length")) && Number(v, n);
    PartsRead(a, key, b, c, v, d, n);
  }

  lemma PartsRead(a: seq<byte>, key: seq<byte>, b: seq<byte>, c: seq<byte>, v: seq<byte>, d: seq<byte>, n: nat)
    requires n < U32 && Blank(a) && Blank(b) && Blank(c) && Blank(d)
    requires SameIgnoringCase(key, Ascii("content-length")) && Number(v, n)
    ensures LineLength(a + key + b + [COLON] + (c + v + d)) == Some(n)
  {
    hide Trim, SplitOnce, DecimalValue, Blank, SameIgnoringCase, Number, Ascii, ParseUnsigned;
    KeyIsInk(key);
    NumberIsInk(v, n);
    BlankIsClear(a, COLON);
    BlankIsClear(b, COLON);
    SplitOnceByte(a + key + b, COLON, c + v + d);
    TrimBlanks(a, key, b);
    TrimBlanks(c, v, d);
    IsNumber(v, n);
  }

  lemma KnownPlus()
    ensures Number(Ascii("+7"), 7)
  {
    var p := Ascii("+7");
    assert p[1..] == Ascii("7") && p[1..][..0] == [] && DecimalValue(p[1..][..0]) == 0;
  }

  lemma KnownLength()
    ensures Number(Ascii("1024"), 1024)
  {
    var s := Ascii("1024");
    assert s[..3] == Ascii("102") && s[..3][..2] == Ascii("10") && s[..3][..2][..1] == Ascii("1");
    assert s[..3][..2][..1][..0] == [] && DecimalValue([]) == 0;
    assert DecimalValue(Ascii("1")) == 1 && DecimalValue(Ascii("10")) == 10 && DecimalValue(Ascii("102")) == 102;
  }

  lemma CrlfSplit(line: seq<byte>, rest: seq<byte>)
    requires CR !in line
    ensures Split(line + [CR, LF] + rest, [CR, LF]) == [line] + Split(rest, [CR, LF])
  {
    var s := line + [CR, LF] + rest;
    assert s[|line|..|line| + 2] == [CR, LF];
    forall j: nat | j < |line| ensures !MatchAt(s, [CR, LF], j) {
      assert s[j] == line[j];
      assert s[j..j + 2][0] == s[j];
    }
    FindIs(s, [CR, LF], |line|);
    assert s[..|line|] == line && s[|line| + 2..] == rest;
  }

  /** Lines without CR that give no length. */
  predicate NoLength(lines: seq<seq<byte>>)
  {
    forall i :: 0 <= i < |lines| ==> CR !in lines[i] && LineLength(lines[i]).None?
  }

  /** The first usable Content-Length line decides. */
  lemma {:induction false} FirstLengthDecides(before: seq<seq<byte>>, line: seq<byte>, n: nat, rest: seq<byte>)
    requires n < U32 && NoLength(before) && CR !in line && GivesLength(line, n)
    ensures FirstLength(Split(HeaderLines(before) + (line + [CR, LF] + rest), [CR, LF])) == Some(n)
  {
    hide LineLength, GivesLength, Split;
    var tail := line + [CR, LF] + rest;
    if before == [] {
      LineLengthIff(line, n);
      CrlfSplit(line, rest);
      assert HeaderLines(before) + tail == tail;
    } else {
      var more := HeaderLines(before[1..]) + tail;
      FirstLengthDecides(before[1..], line, n, rest);
      CrlfSplit(before[0], more);
      assert HeaderLines(before) + tail == before[0] + [CR, LF] + more;
      assert ([before[0]] + Split(more, [CR, LF]))[1..] == Split(more, [CR, LF]);
    }
  }

  /** The headers end with their first blank line. */
  predicate Headers(h: seq<byte>) { Find(h, Ascii("\r\n\r\n")) == Some(|h| - 4) }

  lemma BlankLineBytes()
    ensures BLANK_LINE == Ascii("\r\n\r\n")
  {
  }

  /** Where a request ends whose headers announce a body of `n` bytes after any other lines: after
      that body, or at the end of the buffer. */
  lemma AnnouncedEnd(before: seq<seq<byte>>, line: seq<byte>, n: nat, rest: seq<byte>)
    requires NoLength(before) && n < U32 && CR !in line && GivesLength(line, n)
    requires var h := HeaderLines(before) + (line + [CR, LF] + rest); Headers(h) && IsUtf8(h)
    ensures var h := HeaderLines(before) + (line + [CR, LF] + rest);
            Need(h) == Some(Min(|h| + n, 1024))
  {
    hide FirstLength, GivesLength, NoLength, IsUtf8;
    BlankLineBytes();
    FirstLengthDecides(before, line, n, rest);
    var h := HeaderLines(before) + (line + [CR, LF] + rest);
    assert h[..|h|] == h;
  }

  /** Headers that are not UTF-8, or whose lines give no length, announce no body. */
  lemma SilentEnd(h: seq<byte>)
    requires Headers(h) && (IsUtf8(h) ==> FirstLength(Split(h, Ascii("\r\n"))) == None)
    ensures Need(h) == Some(Min(|h|, 1024))
  {
    hide FirstLength, IsUtf8, Split, Find;
    BlankLineBytes();
    assert Ascii("\r\n") == [CR, LF];
    assert h[..|h|] == h;
  }

  /** A request written with its body's length in a Content-Length line, after any other header
      lines, is read whole under every split. */
  lemma AnnouncedRequestRead(before: seq<seq<byte>>, line: seq<byte>, rest: seq<byte>, body: seq<byte>, segs: seq<seq<byte>>)
    requires NoLength(before) && CR !in line && GivesLength(line, |body|)
    requires var h := HeaderLines(before) + (line + [CR, LF] + rest);
             && Headers(h) && IsUtf8(h)
             && |h + body| <= 1024 && Segments(segs) && Flat(segs) == h + body
    ensures Gather([], segs) == HeaderLines(before) + (line + [CR, LF] + rest) + body
  {
    hide Gather, Segments, Flat, Need, GivesLength, NoLength, IsUtf8, Headers;
    AnnouncedEnd(before, line, |body|, rest);
    RequestRead(HeaderLines(before) + (line + [CR, LF] + rest), body, segs);
  }

  /** One byte per segment. */
  function Single(s: seq<byte>): (r: seq<seq<byte>>)
    ensures Segments(r) && |r| == |s|
  {
    seq(|s|, i requires 0 <= i < |s| => [s[i]])
  }

  lemma {:induction false} FlatSingle(s: seq<byte>)
    ensures Flat(Single(s)) == s
  {
    if s != [] {
      FlatSingle(s[1..]);
      assert Single(s)[1..] == Single(s[1..]);
    }
  }

  /** Read byte by byte, the loop stops exactly at the target. */
  lemma {:induction false} GatherSingle(s: seq<byte>, k: nat)
    requires k <= Target(s) <= |s|
    ensures Gather(s[..k], Single(s[k..])) == s[..Target(s)]
    decreases |s| - k
  {
    hide Need;
    FlatSingle(s[k..]);
    var n := Target(s);
    CompleteAtTarget(s, k);
    if k < n {
      var segs := Single(s[k..]);
      assert segs[0] == [s[k]] && segs[1..] == Single(s[k + 1..]);
      assert s[..k] + [s[k]] == s[..k + 1];
      assert segs[0][..1] == segs[0];
      GatherSingle(s, k + 1);
    }
  }

  lemma CompleteAtTarget(s: seq<byte>, k: nat)
    requires k <= Target(s) <= |s|
    ensures Complete(s[..k]) <==> k == Target(s)
  {
    hide Need;
    var b := s[..Min(|s|, BUFFER)];
    var a := s[..k];
    assert IsPrefix(a, b);
    if Need(a).Some? {
      NeedStable(a, b);
    }
    if k == Target(s) && Need(b).Some? {
      NeedByItsEnd(b, k);
      assert b[..k] == a;
    }
  }

  /** All in one segment, the loop fills the buffer as far as the bytes go. */
  lemma GatherOne(s: seq<byte>)
    requires s != []
    ensures Gather([], [s]) == s[..Min(|s|, BUFFER)]
  {
    hide Need;
    EmptyIncomplete();
    var n := Min(BUFFER, |s|);
    var got := s[..n];
    RestIsShorter([s], BUFFER);
    assert [] + s[..n] == got;
    assert Gather([], [s]) == Gather(got, Rest([s], BUFFER));
    if |s| > BUFFER {
      assert Complete(got);
    } else {
      assert Rest([s], BUFFER) == [];
    }
  }

  lemma EmptyIncomplete()
    ensures !Complete([])
  {
  }

  /** Reading is independent of segmentation exactly when the bytes sent do not run past the
      target: otherwise two splits of the same bytes already disagree. */
  lemma IndependentIffNoExcess(s: seq<byte>)
    requires s != []
    ensures (forall segs :: Segments(segs) && Flat(segs) == s ==> Gather([], segs) == s[..Min(|s|, 1024)])
            <==> Min(|s|, 1024) <= Target(s)
  {
    if Min(|s|, BUFFER) <= Target(s) {
      forall segs | Segments(segs) && Flat(segs) == s ensures Gather([], segs) == s[..Min(|s|, BUFFER)] {
        GatherBounds([], segs);
        assert [] + s == s;
      }
    } else {
      FlatSingle(s);
      GatherSingle(s, 0);
      assert s[..0] == [] && s[0..] == s;
      assert Segments(Single(s)) && Flat(Single(s)) == s;
      assert |Gather([], Single(s))| == Target(s);
    }
  }

  lemma SplitsDisagree(s: seq<byte>)
    requires Min(|s|, BUFFER) > Target(s)
    ensures Segments([s]) && Flat([s]) == s && Segments(Single(s)) && Flat(Single(s)) == s
    ensures Gather([], [s]) != Gather([], Single(s))
  {
    assert [s][1..] == [];
    assert s + [] == s;
    FlatSingle(s);
    GatherOne(s);
    GatherSingle(s, 0);
    assert s[..0] == [] && s[0..] == s;
  }

  /** Such bytes exist: a blank line with one byte after it. */
  lemma ExcessExample()
    ensures var s := BLANK_LINE + [65];
            Min(|s|, BUFFER) > Target(s) && Gather([], [s]) != Gather([], Single(s))
  {
    var s := BLANK_LINE + [65];
    assert s[..4] == BLANK_LINE && s[..5] == s;
    FindIs(s, BLANK_LINE, 0);
    BlankHasNoLength();
    SplitsDisagree(s);
  }

  lemma BlankHasNoLength()
    ensures ContentLength(BLANK_LINE) == None
  {
    hide Split, SplitOnce, LineLength, IsUtf8;
    var end: seq<byte> := [];
    EmptyUnsplit(end);
    CrlfSplit(end, end);
    CrlfSplit(end, [CR, LF]);
    assert end + [CR, LF] + [CR, LF] == BLANK_LINE && end + [CR, LF] + end == [CR, LF];
    assert Split(BLANK_LINE, [CR, LF]) == [end, end, end];
    assert [end, end, end][1..] == [end, end] && [end, end][1..] == [end] && [end][1..] == [];
    EmptyHasNoLength(end);
    var none: seq<seq<byte>> := [];
    assert FirstLength(none) == None;
    assert FirstLength([end]) == None;
    assert FirstLength([end, end]) == None;
  }

  lemma EmptyHasNoLength(s: seq<byte>)
    requires s == []
    ensures LineLength(s) == None
  {
    hide SplitOnce;
    EmptyUnsplit(s);
  }

  lemma EmptyUnsplit(s: seq<byte>)
    requires s == []
    ensures SplitOnce(s, [COLON]) == None && Split(s, [CR, LF]) == [s]
  {
  }

  // ---- The method -----------------------------------------------------------------------------

  /** A connection: the segments still to come, and whether it then fails instead of closing. */
  class Socket {
    var segs: seq<seq<byte>>
    const fails: bool

    constructor (segs: seq<seq<byte>>, fails: bool)
      ensures this.segs == segs && this.fails == fails
    {
      this.segs, this.fails := segs, fails;
    }

    /** `read`: `Some([])` is end of stream, `None` an error. */
    method Read(room: nat) returns (r: Option<seq<byte>>)
      requires Segments(segs) && room > 0
      modifies this
      ensures old(segs) == [] ==> segs == [] && r == (if fails then None else Some([]))
      ensures old(segs) != [] ==>
                r == Some(old(segs)[0][..Min(room, |old(segs)[0]|)]) && segs == Rest(old(segs), room)
    {
      if segs == [] {
        return if fails then None else Some([]);
      }
      r := Some(segs[0][..Min(room, |segs[0]|)]);
      segs := Rest(segs, room);
    }
  }

  datatype Outcome = Request(bytes: seq<byte>) | Nothing | Failed

  /** The header search after a read, while `need` is still unknown. */
  method FindNeed(got: seq<byte>) returns (need: Option<nat>)
    ensures need == Need(got)
  {
    hide ContentLength;
    var i := FindSubslice(got, BLANK_LINE);
    if i.None? {
      return None;
    }
    var header_end := i.value + 4;
    var clen := ContentLength(got[..header_end]);
    var body := if clen.Some? then clen.value else 0;
    var end := if header_end + body < U32 then header_end + body else U32 - 1;
    return Some(Min(end, BUFFER));
  }

  lemma GatherStep(got: seq<byte>, segs: seq<seq<byte>>)
    requires Segments(segs)
    ensures Complete(got) || segs == [] ==> Gather(got, segs) == got
    ensures !Complete(got) && segs != [] ==>
              var room := BUFFER - |got|;
              && room > 0 && Segments(Rest(segs, room)) && |Flat(Rest(segs, room))| < |Flat(segs)|
              && Min(room, |segs[0]|) > 0
              && Gather(got, segs) == Gather(got + segs[0][..Min(room, |segs[0]|)], Rest(segs, room))
  {
    hide Need, Flat;
    if !Complete(got) && segs != [] {
      RestIsShorter(segs, BUFFER - |got|);
    }
  }

  /** The read loop of `handle_request`, with its buffer, `pos` and `need`. */
  method ReadRequest(socket: Socket) returns (o: Outcome)
    requires Segments(socket.segs)
    modifies socket
    ensures var g := Gather([], old(socket.segs));
            o == if Complete(g) then Request(g)
                 else if socket.fails then Failed
                 else if g == [] then Nothing else Request(g)
  {
    hide Need, Flat, Gather, Rest;
    var buffer := new byte[BUFFER](_ => 0);
    var pos: nat := 0;
    var need: Option<nat> := None;
    ghost var g := Gather([], socket.segs);
    EmptyNeed();
    while !((need.Some? && pos >= need.value) || pos >= BUFFER)
      invariant pos <= BUFFER && Segments(socket.segs)
      invariant need == Need(buffer[..pos])
      invariant g == Gather(buffer[..pos], socket.segs)
      decreases |Flat(socket.segs)|
    {
      ghost var got := buffer[..pos];
      GatherStep(got, socket.segs);
      var r := socket.Read(BUFFER - pos);
      match r {
        case None => return Failed;
        case Some(chunk) =>
          if |chunk| == 0 {
            return if pos == 0 then Nothing else Request(buffer[..pos]);
          }
          forall j | 0 <= j < |chunk| {
            buffer[pos + j] := chunk[j];
          }
          pos := pos + |chunk|;
          assert buffer[..pos] == got + chunk;
          if need.None? {
            need := FindNeed(buffer[..pos]);
          } else {
            NeedStable(got, buffer[..pos]);
          }
      }
    }
    GatherStep(buffer[..pos], socket.segs);
    return Request(buffer[..pos]);
  }

  lemma EmptyNeed()
    ensures Need([]) == None
  {
  }
}
