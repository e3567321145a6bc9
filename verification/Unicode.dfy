/** What the byte-level UTF-8 check and white-space trimming of module `Text` mean in terms of code
    points (section 3 of RFC 3629 and the Unicode property White_Space). */
module Unicode {
  import opened Bytes
  import opened Text

  /** A Unicode scalar value. */
  predicate Scalar(p: nat) { p < 0xD800 || 0xE000 <= p < 0x11_0000 }

  /** Its encoding by the bit patterns of section 3 of RFC 3629. */
  function Utf8Char(p: nat): (s: seq<byte>)
    requires Scalar(p)
    ensures 1 <= |s| <= 4
  {
    if p < 0x80 then [p]
    else if p < 0x800 then [0xC0 + p / 0x40, 0x80 + p % 0x40]
    else if p < 0x1_0000 then [0xE0 + p / 0x1000, 0x80 + p / 0x40 % 0x40, 0x80 + p % 0x40]
    else [0xF0 + p / 0x4_0000, 0x80 + p / 0x1000 % 0x40, 0x80 + p / 0x40 % 0x40, 0x80 + p % 0x40]
  }

  predicate Scalars(ps: seq<nat>) { forall i :: 0 <= i < |ps| ==> Scalar(ps[i]) }

  function Utf8Text(ps: seq<nat>): seq<byte>
    requires Scalars(ps)
  {
    if ps == [] then [] else Utf8Char(ps[0]) + Utf8Text(ps[1..])
  }

  /** The code point whose bits the bytes of one character carry. */
  function PointOf(s: seq<byte>): (p: nat)
    requires CharLen(s) > 0
  {
    if CharLen(s) == 1 then s[0]
    else
      var b: int := s[1] - 0x80;
      if CharLen(s) == 2 then
        var a: int := s[0] - 0xC0;
        a * 0x40 + b
      else
        var c: int := s[2] - 0x80;
        if CharLen(s) == 3 then
          var a: int := s[0] - 0xE0;
          (a * 0x40 + b) * 0x40 + c
        else
          var a: int, d: int := s[0] - 0xF0, s[3] - 0x80;
          ((a * 0x40 + b) * 0x40 + c) * 0x40 + d
  }

  lemma CharOfPoint(p: nat, rest: seq<byte>)
    requires Scalar(p)
    ensures CharLen(Utf8Char(p) + rest) == |Utf8Char(p)|
  {
  }

  lemma Bits(hi: nat, lo: nat)
    requires lo < 0x40
    ensures (hi * 0x40 + lo) / 0x40 == hi && (hi * 0x40 + lo) % 0x40 == lo
  {
  }

  lemma DivTwice(p: nat)
    ensures p / 0x40 / 0x40 == p / 0x1000 && p / 0x40 / 0x40 / 0x40 == p / 0x4_0000
  {
  }

  lemma TwoBytes(a: nat, b: nat)
    requires 2 <= a < 0x20 && b < 0x40
    ensures var p := a * 0x40 + b; Scalar(p) && Utf8Char(p) == [0xC0 + a, 0x80 + b]
  {
    Bits(a, b);
  }

  lemma ThreeBytes(a: nat, b: nat, c: nat)
    requires a < 0x10 && b < 0x40 && c < 0x40 && (a == 0 ==> b >= 0x20) && (a == 0xD ==> b < 0x20)
    ensures var p := (a * 0x40 + b) * 0x40 + c; Scalar(p) && Utf8Char(p) == [0xE0 + a, 0x80 + b, 0x80 + c]
  {
    var p := (a * 0x40 + b) * 0x40 + c;
    Bits(a, b);
    Bits(a * 0x40 + b, c);
    DivTwice(p);
  }

  lemma FourBytes(a: nat, b: nat, c: nat, d: nat)
    requires a < 5 && b < 0x40 && c < 0x40 && d < 0x40 && (a == 0 ==> b >= 0x10) && (a == 4 ==> b < 0x10)
    ensures var p := ((a * 0x40 + b) * 0x40 + c) * 0x40 + d;
            Scalar(p) && Utf8Char(p) == [0xF0 + a, 0x80 + b, 0x80 + c, 0x80 + d]
  {
    var p := ((a * 0x40 + b) * 0x40 + c) * 0x40 + d;
    Bits(a, b);
    Bits(a * 0x40 + b, c);
    Bits((a * 0x40 + b) * 0x40 + c, d);
    DivTwice(p);
    DivTwice((a * 0x40 + b) * 0x40 + c);
  }

  lemma PointOfChar(s: seq<byte>)
    requires CharLen(s) > 0
    ensures Scalar(PointOf(s)) && Utf8Char(PointOf(s)) == s[..CharLen(s)]
  {
    hide Utf8Char, Scalar;
    var n := CharLen(s);
    if n == 1 {
      OneByte(s[0]);
    } else if n == 2 {
      TwoBytes(s[0] - 0xC0, s[1] - 0x80);
    } else if n == 3 {
      ThreeBytes(s[0] - 0xE0, s[1] - 0x80, s[2] - 0x80);
    } else {
      FourBytes(s[0] - 0xF0, s[1] - 0x80, s[2] - 0x80, s[3] - 0x80);
    }
  }

  lemma OneByte(a: nat)
    requires a < 0x80
    ensures Scalar(a) && Utf8Char(a) == [a]
  {
  }

  lemma {:induction false} EncodedIsUtf8(ps: seq<nat>)
    requires Scalars(ps)
    ensures IsUtf8(Utf8Text(ps))
  {
    hide CharLen, Utf8Char;
    if ps != [] {
      EncodedIsUtf8(ps[1..]);
      CharOfPoint(ps[0], Utf8Text(ps[1..]));
      assert Utf8Text(ps)[|Utf8Char(ps[0])|..] == Utf8Text(ps[1..]);
    }
  }

  lemma {:induction false} Utf8IsEncoded(s: seq<byte>) returns (ps: seq<nat>)
    requires IsUtf8(s)
    ensures Scalars(ps) && s == Utf8Text(ps)
    decreases |s|
  {
    hide CharLen, Utf8Char, PointOf;
    if s == [] {
      ps := [];
    } else {
      var n := CharLen(s);
      PointOfChar(s);
      var more := Utf8IsEncoded(s[n..]);
      ps := [PointOf(s)] + more;
      assert ps[1..] == more && s == s[..n] + s[n..];
    }
  }

  /** The check accepts exactly the encodings of sequences of scalar values. */
  lemma Utf8Iff(s: seq<byte>)
    ensures IsUtf8(s) <==> exists ps :: Scalars(ps) && s == Utf8Text(ps)
  {
    if IsUtf8(s) {
      var ps := Utf8IsEncoded(s);
    }
    forall ps | Scalars(ps) && s == Utf8Text(ps) ensures IsUtf8(s) {
      EncodedIsUtf8(ps);
    }
  }

  // ---- White space by code point --------------------------------------------------------------

  /** The characters with the Unicode property White_Space. */
  predicate White(p: nat)
  {
    || 9 <= p <= 13 || p == 0x20 || p == 0x85 || p == 0xA0 || p == 0x1680 || 0x2000 <= p <= 0x200A
    || p == 0x2028 || p == 0x2029 || p == 0x202F || p == 0x205F || p == 0x3000
  }

  lemma BlankPoint(p: nat, rest: seq<byte>)
    requires Scalar(p)
    ensures White(p) ==> BlankFront(Utf8Char(p) + rest) == |Utf8Char(p)| && BlankBack(rest + Utf8Char(p)) == |Utf8Char(p)|
    ensures !White(p) ==> BlankFront(Utf8Char(p) + rest) == 0
  {
  }

  predicate AllWhite(ps: seq<nat>) { forall i :: 0 <= i < |ps| ==> Scalar(ps[i]) && White(ps[i]) }

  /** Text of white-space characters only. */
  ghost predicate Blank(s: seq<byte>)
  {
    exists ps :: AllWhite(ps) && s == Utf8Text(ps)
  }

  lemma {:induction false} Utf8TextSnoc(ps: seq<nat>, p: nat)
    requires Scalars(ps) && Scalar(p)
    ensures Utf8Text(ps + [p]) == Utf8Text(ps) + Utf8Char(p)
  {
    hide Utf8Char;
    var all := ps + [p];
    if ps == [] {
      assert all[1..] == [];
      assert Utf8Text(all) == Utf8Char(p) + [];
    } else {
      Utf8TextSnoc(ps[1..], p);
      assert all[1..] == ps[1..] + [p];
      assert Utf8Char(ps[0]) + (Utf8Text(ps[1..]) + Utf8Char(p)) == Utf8Char(ps[0]) + Utf8Text(ps[1..]) + Utf8Char(p);
    }
  }

  lemma {:induction false} DropFront(ps: seq<nat>, x: seq<byte>)
    requires AllWhite(ps)
    ensures TrimFront(Utf8Text(ps) + x) == TrimFront(x)
  {
    hide Utf8Char, BlankFront;
    if ps == [] {
      assert Utf8Text(ps) + x == x;
    } else {
      var more := Utf8Text(ps[1..]) + x;
      var s := Utf8Text(ps) + x;
      BlankPoint(ps[0], more);
      assert s == Utf8Char(ps[0]) + more;
      assert s[|Utf8Char(ps[0])|..] == more;
      DropFront(ps[1..], x);
    }
  }

  lemma {:induction false} DropBack(ps: seq<nat>, x: seq<byte>)
    requires AllWhite(ps)
    ensures TrimBack(x + Utf8Text(ps)) == TrimBack(x)
  {
    hide Utf8Char, BlankBack, Utf8Text;
    if ps == [] {
      NoPoints();
      assert x + Utf8Text(ps) == x;
    } else {
      var init, p := ps[..|ps| - 1], ps[|ps| - 1];
      Utf8TextSnoc(init, p);
      assert ps == init + [p];
      var more := x + Utf8Text(init);
      var s := x + Utf8Text(ps);
      BlankPoint(p, more);
      assert s == more + Utf8Char(p);
      assert s[..|s| - |Utf8Char(p)|] == more;
      DropBack(init, x);
    }
  }

  lemma NoPoints()
    ensures Utf8Text([]) == []
  {
  }

  /** Trimming removes all white space around an inked text ... */
  lemma TrimBlanks(a: seq<byte>, x: seq<byte>, b: seq<byte>)
    requires Blank(a) && Blank(b) && x != [] && 32 < x[0] < 0x80 && 32 < x[|x| - 1] < 0x80
    ensures Trim(a + x + b) == x
  {
    hide Utf8Text;
    var ps :| AllWhite(ps) && a == Utf8Text(ps);
    var qs :| AllWhite(qs) && b == Utf8Text(qs);
    DropFront(ps, x + b);
    assert a + x + b == a + (x + b);
    assert TrimFront(x + b) == x + b by { assert BlankFront(x + b) == 0; }
    DropBack(qs, x);
    assert BlankBack(x) == 0;
  }

  lemma FrontIsWhite(s: seq<byte>) returns (p: nat)
    requires BlankFront(s) > 0
    ensures Scalar(p) && White(p) && Utf8Char(p) == s[..BlankFront(s)]
  {
    var n := BlankFront(s);
    if n == 1 {
      p := s[0];
    } else if n == 2 {
      p := s[1];
    } else {
      p := WideBlank(s[0], s[1], s[2]);
    }
  }

  lemma BackIsWhite(s: seq<byte>) returns (p: nat)
    requires BlankBack(s) > 0
    ensures Scalar(p) && White(p) && Utf8Char(p) == s[|s| - BlankBack(s)..]
  {
    var n, k := BlankBack(s), |s|;
    if n == 1 {
      p := s[k - 1];
    } else if n == 2 {
      p := s[k - 1];
    } else {
      p := WideBlank(s[k - 3], s[k - 2], s[k - 1]);
    }
  }

  lemma WideBlank(a: byte, b: byte, c: byte) returns (p: nat)
    requires IsWideBlank(a, b, c)
    ensures Scalar(p) && White(p) && Utf8Char(p) == [a, b, c]
  {
    p := if a == 0xE1 then 0x1680 else if a == 0xE3 then 0x3000 else if b == 0x81 then 0x205F else 0x2000 + (c - 0x80);
  }

  lemma {:induction false} FrontSound(s: seq<byte>) returns (ps: seq<nat>)
    ensures AllWhite(ps) && s == Utf8Text(ps) + TrimFront(s)
    decreases |s|
  {
    hide Utf8Char, BlankFront, Utf8Text, White, TrimFront;
    var n := BlankFront(s);
    TrimStep(s);
    if n == 0 {
      ps := [];
      NoPoints();
      assert s == [] + s;
    } else {
      var p := FrontIsWhite(s);
      var more := FrontSound(s[n..]);
      ps := [p] + more;
      Utf8TextCons(p, more);
      JoinFront(s, n, Utf8Text(more), TrimFront(s));
    }
  }

  lemma TrimStep(s: seq<byte>)
    ensures TrimFront(s) == if BlankFront(s) == 0 then s else TrimFront(s[BlankFront(s)..])
  {
  }

  lemma JoinFront(s: seq<byte>, n: nat, a: seq<byte>, b: seq<byte>)
    requires n <= |s| && s[n..] == a + b
    ensures s == s[..n] + a + b
  {
    assert s == s[..n] + s[n..];
  }

  lemma Utf8TextCons(p: nat, more: seq<nat>)
    requires Scalar(p) && Scalars(more)
    ensures Scalars([p] + more) && Utf8Text([p] + more) == Utf8Char(p) + Utf8Text(more)
  {
    hide Utf8Char;
    assert ([p] + more)[1..] == more;
  }

  lemma {:induction false} BackSound(s: seq<byte>) returns (ps: seq<nat>)
    ensures AllWhite(ps) && s == TrimBack(s) + Utf8Text(ps)
    decreases |s|
  {
    hide Utf8Char, BlankBack, Utf8Text;
    if BlankBack(s) == 0 {
      ps := [];
      NoPoints();
      assert s == s + [];
    } else {
      var k := |s| - BlankBack(s);
      var p := BackIsWhite(s);
      var init := BackSound(s[..k]);
      ps := init + [p];
      Utf8TextSnoc(init, p);
      assert s == s[..k] + s[k..];
    }
  }

  /** ... and nothing else. */
  lemma TrimSound(s: seq<byte>)
    ensures exists a, b :: Blank(a) && Blank(b) && s == a + Trim(s) + b
  {
    hide Utf8Text, TrimFront, TrimBack;
    var ps := FrontSound(s);
    var qs := BackSound(TrimFront(s));
    var a, b := Utf8Text(ps), Utf8Text(qs);
    assert Blank(a) && Blank(b) && s == a + Trim(s) + b;
  }

  lemma {:induction false} BlankHasNo(ps: seq<nat>, c: byte)
    requires AllWhite(ps) && 32 < c < 0x80
    ensures c !in Utf8Text(ps)
  {
    if ps != [] {
      BlankHasNo(ps[1..], c);
      assert c !in Utf8Char(ps[0]);
    }
  }

  /** White space holds no other ASCII character. */
  lemma BlankIsClear(s: seq<byte>, c: byte)
    requires Blank(s) && 32 < c < 0x80
    ensures c !in s
  {
    var ps :| AllWhite(ps) && s == Utf8Text(ps);
    BlankHasNo(ps, c);
  }
}
