/** The mDNS responder of src/mdns.rs: the question walker and the answer builder (section 3.1
    and section 4.1 of RFC 1035, section 10.2 and section 18 of RFC 6762). */
module Mdns {
  import opened Bytes
  import opened Text

  const CAPACITY: nat := 512
  const LOCAL: seq<byte> := Ascii("local")

  // ---- What the responder answers ---------------------------------------------------------------

  /** `name` is the wire form of the two labels `host` and `local`, in any case. */
  predicate WireName(name: seq<byte>, host: seq<byte>)
  {
    var h := |host|;
    && 1 <= h <= 63
    && |name| == h + 8
    && name[0] == h && SameIgnoringCase(name[1..h + 1], host)
    && name[h + 1] == 5 && SameIgnoringCase(name[h + 2..h + 7], Ascii("local"))
    && name[h + 7] == 0
  }

  /** Type A or ANY, class IN with or without the unicast-response bit. */
  predicate WantsAddress(tail: seq<byte>)
    requires |tail| == 4
  {
    && tail[0] == 0 && (tail[1] == 1 || tail[1] == 255)
    && tail[2] % 128 == 0 && tail[3] == 1
  }

  /** A query with at least one question, whose first question asks for `host.local`. */
  predicate Asks(query: seq<byte>, host: seq<byte>)
  {
    && |query| >= 12
    && query[2] < 128
    && (query[4] != 0 || query[5] != 0)
    && |query| >= |host| + 24
    && WireName(query[12..|host| + 20], host)
    && WantsAddress(query[|host| + 20..|host| + 24])
  }

  function Record(ip: seq<byte>, host: seq<byte>): seq<byte>
  {
    [|host| % 256] + host + [5] + LOCAL + [0] + [0x00, 0x01] + [0x80, 0x01] + [0x00, 0x00, 0x00, 0x78] + [0x00, 0x04] + ip
  }

  function Packet(id: seq<byte>, ip: seq<byte>, host: seq<byte>): seq<byte>
  {
    id + [0x84, 0x00] + [0x00, 0x00] + [0x00, 0x01] + [0x00, 0x00] + [0x00, 0x00] + Record(ip, host)
  }

  // ---- What a resolver reads --------------------------------------------------------------------

  /** A resource record as section 4.1.3 of RFC 1035 lays it out, and where it ends. */
  datatype Answer = Answer(name: seq<seq<byte>>, rtype: nat, rclass: nat, ttl: nat, rdata: seq<byte>, end: nat)

  /** The labels from `pos` to the empty one, without compression, and where the name ends. */
  function ReadName(m: seq<byte>, pos: nat): Option<(seq<seq<byte>>, nat)>
    decreases if pos <= |m| then |m| - pos else 0
  {
    if pos >= |m| then None
    else if m[pos] == 0 then Some(([], pos + 1))
    else if m[pos] > 63 || pos + 1 + m[pos] > |m| then None
    else match ReadName(m, pos + 1 + m[pos])
      case None => None
      case Some((labels, end)) => Some(([m[pos + 1..pos + 1 + m[pos]]] + labels, end))
  }

  /** Bytes in network order as a number. */
  function BigEndian(s: seq<byte>): nat
  {
    if s == [] then 0 else BigEndian(s[..|s| - 1]) * 256 + s[|s| - 1]
  }

  function ReadRecord(m: seq<byte>, pos: nat): Option<Answer>
  {
    match ReadName(m, pos)
    case None => None
    case Some((name, at)) =>
      if at + 10 > |m| then None
      else
        var len := BigEndian(m[at + 8..at + 10]);
        if at + 10 + len > |m| then None
        else Some(Answer(name, BigEndian(m[at..at + 2]), BigEndian(m[at + 2..at + 4]), BigEndian(m[at + 4..at + 8]),
                         m[at + 10..at + 10 + len], at + 10 + len))
  }

  /** The message is an authoritative response with this id and a single record, which gives the
      address of `host.local` (type A, class IN with cache-flush, 120 seconds) and ends it. */
  predicate Announces(m: seq<byte>, id: seq<byte>, ip: seq<byte>, host: seq<byte>)
  {
    && |m| >= 12 && m[..2] == id
    && BigEndian(m[2..4]) == 0x8400
    && BigEndian(m[4..6]) == 0 && BigEndian(m[6..8]) == 1 && BigEndian(m[8..10]) == 0 && BigEndian(m[10..12]) == 0
    && ReadRecord(m, 12) == Some(Answer([host, Ascii("local")], 1, 0x8001, 120, ip, |m|))
  }

  lemma Numbers()
    ensures BigEndian([0x84, 0x00]) == 0x8400 && BigEndian([0x00, 0x00]) == 0 && BigEndian([0x00, 0x01]) == 1
    ensures BigEndian([0x80, 0x01]) == 0x8001 && BigEndian([0x00, 0x04]) == 4 && BigEndian([0x00, 0x00, 0x00, 0x78]) == 120
  {
    assert BigEndian([]) == 0;
    assert BigEndian([0x84]) == 0x84 && BigEndian([0x00]) == 0 && BigEndian([0x80]) == 0x80;
    assert [0x00, 0x00, 0x00, 0x78][..3] == [0x00, 0x00, 0x00] && [0x00, 0x00, 0x00][..2] == [0x00, 0x00];
    assert [0x84, 0x00][..1] == [0x84] && [0x00, 0x00][..1] == [0x00] && [0x00, 0x01][..1] == [0x00];
    assert [0x80, 0x01][..1] == [0x80] && [0x00, 0x04][..1] == [0x00];
  }

  /** One label in front of a name that can be read. */
  lemma LabelRead(m: seq<byte>, pos: nat, part: seq<byte>)
    requires 1 <= |part| <= 63 && pos + 1 + |part| <= |m| && m[pos] == |part| && m[pos + 1..pos + 1 + |part|] == part
    ensures ReadName(m, pos) ==
            match ReadName(m, pos + 1 + |part|) case None => None case Some((labels, end)) => Some(([part] + labels, end))
  {
  }

  /** The record built after `front` is read back with every field at its place. */
  lemma RecordRead(front: seq<byte>, ip: seq<byte>, host: seq<byte>)
    requires |ip| == 4 && 1 <= |host| <= 63
    ensures var m := front + Record(ip, host);
            ReadRecord(m, |front|) == Some(Answer([host, Ascii("local")], 1, 0x8001, 120, ip, |m|))
  {
    hide BigEndian, ReadName;
    var m, p, h := front + Record(ip, host), |front|, |host|;
    Numbers();
    LocalLength();
    RecordFields(front, ip, host);
    LabelRead(m, p, host);
    LabelRead(m, p + 1 + h, Ascii("local"));
    NameEnds(m, p + h + 7);
    var none: seq<seq<byte>> := [];
    assert [host] + ([Ascii("local")] + none) == [host, Ascii("local")];
  }

  lemma NameEnds(m: seq<byte>, pos: nat)
    requires pos < |m| && m[pos] == 0
    ensures ReadName(m, pos) == Some(([], pos + 1))
  {
  }

  lemma RecordFields(front: seq<byte>, ip: seq<byte>, host: seq<byte>)
    requires |ip| == 4 && 1 <= |host| <= 63
    ensures var m, p, h := front + Record(ip, host), |front|, |host|;
            && |m| == p + h + 22 && m[p] == h && m[p + 1..p + 1 + h] == host
            && m[p + h + 1] == 5 && m[p + h + 2..p + h + 7] == Ascii("local") && m[p + h + 7] == 0
            && m[p + h + 8..p + h + 10] == [0x00, 0x01] && m[p + h + 10..p + h + 12] == [0x80, 0x01]
            && m[p + h + 12..p + h + 16] == [0x00, 0x00, 0x00, 0x78] && m[p + h + 16..p + h + 18] == [0x00, 0x04]
            && m[p + h + 18..p + h + 22] == ip
  {
    LocalLength();
    assert |host| % 256 == |host|;
  }

  /** Every packet the builders produce is such a message. */
  lemma PacketAnnounces(id: seq<byte>, ip: seq<byte>, host: seq<byte>)
    requires |id| == 2 && |ip| == 4 && 1 <= |host| <= 63
    ensures Announces(Packet(id, ip, host), id, ip, host)
  {
    hide BigEndian, ReadRecord, Record;
    Numbers();
    var front := id + [0x84, 0x00] + [0x00, 0x00] + [0x00, 0x01] + [0x00, 0x00] + [0x00, 0x00];
    RecordRead(front, ip, host);
    assert Packet(id, ip, host) == front + Record(ip, host);
    var m := Packet(id, ip, host);
    assert m[2..4] == [0x84, 0x00] && m[4..6] == [0x00, 0x00] && m[6..8] == [0x00, 0x01];
    assert m[8..10] == [0x00, 0x00] && m[10..12] == [0x00, 0x00];
  }

  // ---- The walker -----------------------------------------------------------------------------

  /** The walk over the labels from `pos`: where the question's type starts, if the labels are
      exactly the two expected ones. */
  function Walk(query: seq<byte>, host: seq<byte>, pos: nat, idx: nat, matches: bool): Option<nat>
    decreases if pos <= |query| then |query| - pos else 0
  {
    if pos >= |query| then None
    else
      var n := query[pos];
      if n == 0 then if matches && idx == 2 then Some(pos + 1) else None
      else if n > 63 || pos + 1 + n > |query| then None
      else
        var piece := query[pos + 1..pos + 1 + n];
        var ok := idx < 2 && SameIgnoringCase(piece, if idx == 0 then host else LOCAL);
        Walk(query, host, pos + 1 + n, idx + 1, matches && ok)
  }

  /** A walk that has failed, or has seen more than two labels, stays failed. */
  lemma {:induction false} DeadWalk(query: seq<byte>, host: seq<byte>, pos: nat, idx: nat, matches: bool)
    requires !matches || idx > 2
    ensures Walk(query, host, pos, idx, matches) == None
    decreases if pos <= |query| then |query| - pos else 0
  {
    hide SameIgnoringCase;
    if pos < |query| && query[pos] != 0 && query[pos] <= 63 && pos + 1 + query[pos] <= |query| {
      var piece := query[pos + 1..pos + 1 + query[pos]];
      var ok := idx < 2 && SameIgnoringCase(piece, if idx == 0 then host else LOCAL);
      DeadWalk(query, host, pos + 1 + query[pos], idx + 1, matches && ok);
    }
  }

  /** After both labels only the terminator will do. */
  lemma LastWalk(query: seq<byte>, host: seq<byte>, pos: nat)
    ensures Walk(query, host, pos, 2, true) == if pos < |query| && query[pos] == 0 then Some(pos + 1) else None
  {
    hide SameIgnoringCase;
    if pos < |query| && query[pos] != 0 && query[pos] <= 63 && pos + 1 + query[pos] <= |query| {
      DeadWalk(query, host, pos + 1 + query[pos], 3, false);
    }
  }

  /** One label step: either it is the expected one, or the walk fails. */
  lemma LabelWalk(query: seq<byte>, host: seq<byte>, pos: nat, idx: nat)
    requires idx < 2
    ensures var want := if idx == 0 then host else LOCAL;
            var k := |want|;
            Walk(query, host, pos, idx, true) ==
            if 1 <= k <= 63 && pos + 1 + k <= |query| && query[pos] == k && SameIgnoringCase(query[pos + 1..pos + 1 + k], want)
            then Walk(query, host, pos + 1 + k, idx + 1, true) else None
  {
    var want := if idx == 0 then host else LOCAL;
    if pos < |query| && query[pos] != 0 && query[pos] <= 63 && pos + 1 + query[pos] <= |query| {
      var piece := query[pos + 1..pos + 1 + query[pos]];
      if !SameIgnoringCase(piece, want) {
        DeadWalk(query, host, pos + 1 + query[pos], idx + 1, false);
      }
    }
  }

  /** The name at offset 12, byte by byte. */
  predicate NameAt(query: seq<byte>, host: seq<byte>)
    requires |query| >= |host| + 20
  {
    var h := |host|;
    && 1 <= h <= 63 && query[12] == h && SameIgnoringCase(query[13..13 + h], host)
    && query[13 + h] == 5 && SameIgnoringCase(query[14 + h..19 + h], LOCAL) && query[19 + h] == 0
  }

  lemma NameFields(query: seq<byte>, host: seq<byte>)
    requires |query| >= |host| + 20
    ensures WireName(query[12..|host| + 20], host) <==> NameAt(query, host)
  {
    hide SameIgnoringCase, Ascii;
    var h := |host|;
    Within(query, 12, h + 8, 1, h + 1);
    Within(query, 12, h + 8, h + 2, h + 7);
  }

  /** The walk from offset 12 succeeds exactly on the wire form of `host.local`. */
  lemma WalkIffWireName(query: seq<byte>, host: seq<byte>)
    requires |query| >= 12
    ensures Walk(query, host, 12, 0, true) ==
            if |query| >= |host| + 20 && WireName(query[12..|host| + 20], host) then Some(|host| + 20) else None
  {
    hide SameIgnoringCase, Walk, WireName, Ascii;
    var h := |host|;
    LocalLength();
    LabelWalk(query, host, 12, 0);
    LabelWalk(query, host, 13 + h, 1);
    LastWalk(query, host, 19 + h);
    if |query| >= h + 20 {
      NameFields(query, host);
    }
  }

  lemma LocalLength()
    ensures |LOCAL| == 5
  {
  }

  /** The question as a reader of section 4.1.2 of RFC 1035 sees it: a query with a question, whose
      first name has the two labels `host` and `local` in any case, of type A or ANY and class IN. */
  predicate ReadsAsQuestion(query: seq<byte>, host: seq<byte>)
  {
    && |query| >= 12 && BigEndian(query[2..4]) < 0x8000 && BigEndian(query[4..6]) != 0
    && ReadName(query, 12).Some?
    && var (labels, at) := ReadName(query, 12).value;
       && |labels| == 2 && SameIgnoringCase(labels[0], host) && SameIgnoringCase(labels[1], Ascii("local"))
       && at + 4 <= |query|
       && (BigEndian(query[at..at + 2]) == 1 || BigEndian(query[at..at + 2]) == 255)
       && BigEndian(query[at + 2..at + 4]) % 0x8000 == 1
  }

  lemma BigEndianTwo(s: seq<byte>)
    requires |s| == 2
    ensures BigEndian(s) == (s[0] as int) * 256 + (s[1] as int)
  {
    assert s[..1][..0] == [] && BigEndian(s[..1][..0]) == 0;
    assert BigEndian(s[..1]) == s[0] as int;
  }

  /** The responder's condition is exactly that. */
  lemma AsksIff(query: seq<byte>, host: seq<byte>)
    ensures Asks(query, host) <==> ReadsAsQuestion(query, host)
  {
    hide SameIgnoringCase, ReadName, BigEndian, WireName, WantsAddress, Ascii;
    if |query| >= 12 {
      BigEndianTwo(query[2..4]);
      BigEndianTwo(query[4..6]);
      NameIff(query, host);
      var at := |host| + 20;
      if at + 4 <= |query| {
        BigEndianTwo(query[at..at + 2]);
        BigEndianTwo(query[at + 2..at + 4]);
        AddressTail(query[at..at + 4]);
      }
    }
  }

  /** The two labels stand at offset 12 exactly if the reader finds them there. */
  lemma NameIff(query: seq<byte>, host: seq<byte>)
    requires |query| >= 12
    ensures var name := ReadName(query, 12);
            var found := name.Some? && |name.value.0| == 2 && SameIgnoringCase(name.value.0[0], host)
                         && SameIgnoringCase(name.value.0[1], Ascii("local"));
            && (found <==> |query| >= |host| + 20 && WireName(query[12..|host| + 20], host))
            && (found ==> name.value.1 == |host| + 20)
  {
    hide ReadName, WireName, Ascii, SameIgnoringCase;
    LocalLength();
    if |query| >= |host| + 20 && WireName(query[12..|host| + 20], host) {
      NameFields(query, host);
      var h := |host|;
      LabelRead(query, 12, query[13..13 + h]);
      LocalSized(query[14 + h..19 + h]);
      LabelRead(query, 13 + h, query[14 + h..19 + h]);
      NameEnds(query, 19 + h);
    }
    if ReadName(query, 12).Some? && |ReadName(query, 12).value.0| == 2 {
      TwoLabels(query, 12);
      var (labels, at) := ReadName(query, 12).value;
      if SameIgnoringCase(labels[0], host) && SameIgnoringCase(labels[1], Ascii("local")) {
        SameLength(labels[0], host);
        SameLength(labels[1], Ascii("local"));
        NameFields(query, host);
      }
    }
  }

  lemma SameLength(s: seq<byte>, t: seq<byte>)
    requires SameIgnoringCase(s, t)
    ensures |s| == |t|
  {
  }

  lemma LocalSized(s: seq<byte>)
    requires |s| == 5
    ensures 1 <= |s| <= 63
  {
  }

  /** A name of two labels, byte by byte. */
  lemma TwoLabels(m: seq<byte>, pos: nat)
    requires ReadName(m, pos).Some? && |ReadName(m, pos).value.0| == 2
    ensures var (labels, at) := ReadName(m, pos).value;
            var a, b := |labels[0]|, |labels[1]|;
            && 1 <= a <= 63 && 1 <= b <= 63 && at == pos + a + b + 3 <= |m|
            && m[pos] == a && m[pos + 1..pos + 1 + a] == labels[0]
            && m[pos + 1 + a] == b && m[pos + 2 + a..pos + 2 + a + b] == labels[1] && m[pos + 2 + a + b] == 0
  {
    var a := m[pos];
    OneLabel(m, pos + 1 + a);
  }

  lemma OneLabel(m: seq<byte>, pos: nat)
    requires ReadName(m, pos).Some? && |ReadName(m, pos).value.0| == 1
    ensures var (labels, at) := ReadName(m, pos).value;
            var b := |labels[0]|;
            && 1 <= b <= 63 && at == pos + b + 2 <= |m|
            && m[pos] == b && m[pos + 1..pos + 1 + b] == labels[0] && m[pos + 1 + b] == 0
  {
    NoLabel(m, pos + 1 + m[pos]);
  }

  lemma NoLabel(m: seq<byte>, pos: nat)
    requires ReadName(m, pos).Some? && |ReadName(m, pos).value.0| == 0
    ensures pos < |m| && m[pos] == 0 && ReadName(m, pos).value.1 == pos + 1
  {
  }

  // ---- The builders ---------------------------------------------------------------------------

  /** A bounded vector: an append that does not fit leaves it alone and fails. */
  class Vec {
    var items: seq<byte>

    constructor ()
      ensures items == []
    {
      items := [];
    }

    method Extend(x: seq<byte>) returns (ok: bool)
      modifies this
      ensures ok <==> |old(items)| + |x| <= CAPACITY
      ensures items == if ok then old(items) + x else old(items)
    {
      ok := |items| + |x| <= CAPACITY;
      if ok {
        items := items + x;
      }
    }
  }

  /** Appends the parts in order, stopping at the first that does not fit, as a chain of `?`. */
  method ExtendAll(r: Vec, parts: seq<seq<byte>>) returns (ok: bool)
    requires |r.items| <= CAPACITY
    modifies r
    ensures |r.items| <= CAPACITY
    ensures ok <==> |old(r.items)| + |Flat(parts)| <= CAPACITY
    ensures ok ==> r.items == old(r.items) + Flat(parts)
  {
    hide Flat;
    FlatOne([]);
    assert parts[..0] == [] && r.items + [] == r.items;
    for i := 0 to |parts|
      invariant r.items == old(r.items) + Flat(parts[..i]) && |r.items| <= CAPACITY
    {
      FlatSnoc(parts, i);
      FlatPrefix(parts, i + 1);
      ok := r.Extend(parts[i]);
      if !ok {
        return false;
      }
      assert old(r.items) + Flat(parts[..i]) + parts[i] == old(r.items) + (Flat(parts[..i]) + parts[i]);
    }
    assert parts[..|parts|] == parts;
    return true;
  }

  lemma FlatSnoc(parts: seq<seq<byte>>, i: nat)
    requires i < |parts|
    ensures Flat(parts[..i + 1]) == Flat(parts[..i]) + parts[i]
  {
    hide Flat;
    FlatConcat(parts[..i], [parts[i]]);
    FlatOne(parts[i]);
    assert parts[..i + 1] == parts[..i] + [parts[i]];
  }

  lemma FlatPrefix(parts: seq<seq<byte>>, i: nat)
    requires i <= |parts|
    ensures |Flat(parts[..i])| <= |Flat(parts)|
  {
    FlatConcat(parts[..i], parts[i..]);
    assert parts == parts[..i] + parts[i..];
  }

  function RecordParts(ip: seq<byte>, host: seq<byte>): seq<seq<byte>>
  {
    [[|host| % 256], host, [5], LOCAL, [0], [0x00, 0x01], [0x80, 0x01], [0x00, 0x00, 0x00, 0x78], [0x00, 0x04], ip]
  }

  function HeaderParts(id: seq<byte>): seq<seq<byte>>
  {
    [id, [0x84, 0x00], [0x00, 0x00], [0x00, 0x01], [0x00, 0x00], [0x00, 0x00]]
  }

  lemma FlatOne(a: seq<byte>)
    ensures Flat([a]) == a && Flat([]) == []
  {
    assert [a][1..] == [];
    assert a + [] == a;
  }

  lemma FlatFive(a: seq<byte>, b: seq<byte>, c: seq<byte>, d: seq<byte>, e: seq<byte>)
    ensures Flat([a, b, c, d, e]) == a + b + c + d + e
  {
    hide Flat;
    FlatOne(a); FlatOne(b); FlatOne(c); FlatOne(d); FlatOne(e);
    FlatConcat([a], [b]);
    FlatConcat([a] + [b], [c]);
    FlatConcat([a] + [b] + [c], [d]);
    FlatConcat([a] + [b] + [c] + [d], [e]);
    assert [a, b, c, d, e] == [a] + [b] + [c] + [d] + [e];
  }

  lemma RecordIsFlat(ip: seq<byte>, host: seq<byte>)
    ensures Flat(RecordParts(ip, host)) == Record(ip, host)
  {
    hide Flat;
    var a, b, c, d, e := [|host| % 256], host, [5], LOCAL, [0];
    var f, g, h, i, j := [0x00, 0x01], [0x80, 0x01], [0x00, 0x00, 0x00, 0x78], [0x00, 0x04], ip;
    FlatFive(a, b, c, d, e);
    FlatFive(f, g, h, i, j);
    FlatConcat([a, b, c, d, e], [f, g, h, i, j]);
    assert RecordParts(ip, host) == [a, b, c, d, e] + [f, g, h, i, j];
    assert Record(ip, host) == (a + b + c + d + e) + (f + g + h + i + j);
  }

  lemma HeaderIsFlat(id: seq<byte>)
    ensures Flat(HeaderParts(id)) == id + [0x84, 0x00, 0x00, 0x00, 0x00, 0x01, 0x00, 0x00, 0x00, 0x00]
  {
    hide Flat;
    FlatFive([0x84, 0x00], [0x00, 0x00], [0x00, 0x01], [0x00, 0x00], [0x00, 0x00]);
    FlatOne(id);
    FlatConcat([id], [[0x84, 0x00], [0x00, 0x00], [0x00, 0x01], [0x00, 0x00], [0x00, 0x00]]);
    assert HeaderParts(id) == [id] + [[0x84, 0x00], [0x00, 0x00], [0x00, 0x01], [0x00, 0x00], [0x00, 0x00]];
  }

  lemma PacketIsFlat(id: seq<byte>, ip: seq<byte>, host: seq<byte>)
    ensures Flat(HeaderParts(id)) + Flat(RecordParts(ip, host)) == Packet(id, ip, host)
  {
    hide Flat, Record;
    HeaderIsFlat(id);
    RecordIsFlat(ip, host);
  }

  /** The exact size of a packet. */
  lemma PacketLength(id: seq<byte>, ip: seq<byte>, host: seq<byte>)
    requires |id| == 2 && |ip| == 4
    ensures |Packet(id, ip, host)| == 34 + |host|
  {
    LocalLength();
  }

  /** `append_a_record`. */
  method AppendARecord(r: Vec, ip: seq<byte>, host: seq<byte>) returns (ok: bool)
    requires |r.items| <= CAPACITY
    modifies r
    ensures ok <==> |old(r.items)| + |Record(ip, host)| <= CAPACITY
    ensures ok ==> r.items == old(r.items) + Record(ip, host)
    ensures ok && |ip| == 4 && 1 <= |host| <= 63 ==>
              ReadRecord(r.items, |old(r.items)|) == Some(Answer([host, Ascii("local")], 1, 0x8001, 120, ip, |r.items|))
  {
    hide Flat, Record, ReadRecord;
    if |ip| == 4 && 1 <= |host| <= 63 {
      RecordRead(r.items, ip, host);
    }
    RecordIsFlat(ip, host);
    ok := ExtendAll(r, RecordParts(ip, host));
  }

  method BuildPacket(id: seq<byte>, ip: seq<byte>, host: seq<byte>) returns (r: Option<seq<byte>>)
    requires |id| == 2 && |ip| == 4
    ensures r == if 34 + |host| <= CAPACITY then Some(Packet(id, ip, host)) else None
  {
    hide Flat, Record, Packet;
    PacketIsFlat(id, ip, host);
    PacketLength(id, ip, host);
    var v := new Vec();
    var ok := ExtendAll(v, HeaderParts(id));
    assert [] + Flat(HeaderParts(id)) == Flat(HeaderParts(id));
    if !ok {
      return None;
    }
    RecordIsFlat(ip, host);
    ok := AppendARecord(v, ip, host);
    if !ok {
      return None;
    }
    return Some(v.items);
  }

  /** `build_announcement`. */
  method BuildAnnouncement(ip: seq<byte>, host: seq<byte>) returns (r: Option<seq<byte>>)
    requires |ip| == 4
    ensures r == if 34 + |host| <= 512 then Some(Packet([0, 0], ip, host)) else None
    ensures 1 <= |host| <= 63 ==> r.Some? && Announces(r.value, [0, 0], ip, host)
  {
    hide Announces;
    if 1 <= |host| <= 63 {
      PacketAnnounces([0, 0], ip, host);
    }
    r := BuildPacket([0, 0], ip, host);
  }

  /** The label loop of `build_response`: `None` is an early refusal. */
  method WalkLabels(query: seq<byte>, host: seq<byte>) returns (r: Option<nat>)
    requires |query| >= 12
    ensures r.Some? && r.value + 4 <= |query| ==> Walk(query, host, 12, 0, true) == r
    ensures Walk(query, host, 12, 0, true).Some? ==> r == Walk(query, host, 12, 0, true)
    ensures r.Some? ==> r.value <= |query|
  {
    hide SameIgnoringCase;
    var pos, idx, matches := 12, 0, true;
    var ended := false;
    while pos < |query| && !ended
      invariant 12 <= pos <= |query|
      invariant !ended ==> Walk(query, host, 12, 0, true) == Walk(query, host, pos, idx, matches)
      invariant ended ==> Walk(query, host, 12, 0, true) == if matches && idx == 2 then Some(pos) else None
      decreases |query| - pos, if ended then 0 else 1
    {
      var n := query[pos];
      if n == 0 {
        pos := pos + 1;
        ended := true;
      } else {
        if n > 63 || pos + 1 + n > |query| {
          return None;
        }
        var piece := query[pos + 1..pos + 1 + n];
        if idx >= 2 || !SameIgnoringCase(piece, if idx == 0 then host else LOCAL) {
          matches := false;
        }
        idx := idx + 1;
        pos := pos + 1 + n;
      }
    }
    if !matches || idx != 2 {
      return None;
    }
    return Some(pos);
  }

  /** `u16::from_be_bytes`. */
  function Be16(hi: byte, lo: byte): nat
  {
    (hi as int) * 256 + (lo as int)
  }

  /** `build_response`: answers exactly the queries that ask for `host.local`, with the packet
      of exactly 34 + |host| bytes that echoes their id; no byte outside the query is read. */
  method BuildResponse(query: seq<byte>, ip: seq<byte>, host: seq<byte>) returns (r: Option<seq<byte>>)
    requires |ip| == 4
    ensures r.Some? <==> Asks(query, host)
    ensures r.Some? <==> ReadsAsQuestion(query, host)
    ensures r.Some? ==> r.value == Packet(query[..2], ip, host) && |r.value| == 34 + |host|
    ensures r.Some? ==> Announces(r.value, query[..2], ip, host)
  {
    hide Walk, WireName, Packet, WantsAddress, Announces, ReadsAsQuestion;
    AsksIff(query, host);
    if |query| < 12 {
      return None;
    }
    var flags := Be16(query[2], query[3]);
    if flags / 0x8000 % 2 != 0 {
      return None;
    }
    if Be16(query[4], query[5]) == 0 {
      return None;
    }
    WalkIffWireName(query, host);
    var walked := WalkLabels(query, host);
    if walked.None? || walked.value + 4 > |query| {
      return None;
    }
    var pos := walked.value;
    assert pos == |host| + 20;
    var qtype, qclass := Be16(query[pos], query[pos + 1]), Be16(query[pos + 2], query[pos + 3]);
    ghost var tail := query[|host| + 20..|host| + 24];
    assert tail[0] == query[pos] && tail[1] == query[pos + 1] && tail[2] == query[pos + 2] && tail[3] == query[pos + 3];
    AddressTail(tail);
    if (qtype != 1 && qtype != 255) || qclass % 0x8000 != 1 {
      return None;
    }
    NameLength(query[12..|host| + 20], host);
    PacketLength(query[..2], ip, host);
    PacketAnnounces(query[..2], ip, host);
    r := BuildPacket(query[..2], ip, host);
  }

  lemma NameLength(name: seq<byte>, host: seq<byte>)
    requires WireName(name, host)
    ensures 1 <= |host| <= 63
  {
  }

  lemma LowClass(hi: byte, lo: byte)
    requires hi < 128
    ensures Be16(hi, lo) % 0x8000 == Be16(hi, lo) && hi % 128 == hi
  {
    assert Be16(hi, lo) < 0x8000;
  }

  lemma HighClass(hi: byte, lo: byte)
    requires hi >= 128
    ensures Be16(hi, lo) % 0x8000 == Be16(hi - 128, lo) && hi % 128 == hi - 128
  {
    var r := Be16(hi - 128, lo);
    assert Be16(hi, lo) == 0x8000 + r && r < 0x8000;
  }

  lemma ClassBits(hi: byte, lo: byte)
    ensures Be16(hi, lo) % 0x8000 == 1 <==> hi % 128 == 0 && lo == 1
  {
    if hi < 128 {
      LowClass(hi, lo);
    } else {
      HighClass(hi, lo);
    }
  }

  lemma AddressTail(t: seq<byte>)
    requires |t| == 4
    ensures WantsAddress(t) <==>
            (Be16(t[0], t[1]) == 1 || Be16(t[0], t[1]) == 255) && Be16(t[2], t[3]) % 0x8000 == 1
  {
    ClassBits(t[2], t[3]);
  }

  /** The name, type and class that the responder prints are a question it answers itself. */
  lemma OwnNameAsked(head: seq<byte>, id: seq<byte>, ip: seq<byte>, host: seq<byte>)
    requires |head| == 12 && head[2] < 128 && (head[4] != 0 || head[5] != 0)
    requires |id| == 2 && |ip| == 4 && 1 <= |host| <= 63
    ensures |Packet(id, ip, host)| >= |host| + 24
    ensures Asks(head + Packet(id, ip, host)[12..|host| + 24], host)
  {
    hide SameIgnoringCase, Record;
    var h := |host|;
    PacketLength(id, ip, host);
    var query := head + Packet(id, ip, host)[12..h + 24];
    RecordStart(ip, host);
    var name := [h] + host + [5] + LOCAL + [0];
    LocalLength();
    assert Packet(id, ip, host)[12..] == Record(ip, host);
    assert Packet(id, ip, host)[12..h + 24] == Record(ip, host)[..h + 12] == name + [0x00, 0x01, 0x80, 0x01];
    assert query[12..h + 20] == name && query[h + 20..h + 24] == [0x00, 0x01, 0x80, 0x01];
    assert name[1..h + 1] == host && name[h + 2..h + 7] == LOCAL;
    SelfMatch(host);
    SelfMatch(LOCAL);
  }

  lemma SelfMatch(s: seq<byte>)
    ensures SameIgnoringCase(s, s)
  {
  }

  lemma RecordStart(ip: seq<byte>, host: seq<byte>)
    requires |ip| == 4 && |host| <= 63
    ensures |Record(ip, host)| == |host| + 22
    ensures Record(ip, host)[..|host| + 12] == [|host|] + host + [5] + LOCAL + [0] + [0x00, 0x01, 0x80, 0x01]
  {
    LocalLength();
    assert |host| % 256 == |host|;
  }
}
