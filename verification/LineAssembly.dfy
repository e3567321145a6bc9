/** How `run_port` (src/transport.rs) turns received bytes into command lines: a 64-byte line
    buffer that a 65th byte empties with a BEL. */
module LineAssembly {
  import opened Bytes

  const LINE_MAX: nat := 64

  /** What the assembler hands on: a complete line, or an overflow that is answered with BEL. */
  datatype Event = Command(line: seq<byte>) | Overflow

  datatype Asm = Asm(line: seq<byte>, events: seq<Event>)

  const NEW_ASM: Asm := Asm([], [])

  function Take(a: Asm, b: byte): Asm
  {
    if b == CR then
      if a.line == [] then a else Asm([], a.events + [Command(a.line)])
    else if b == LF then a
    else if |a.line| < LINE_MAX then Asm(a.line + [b], a.events)
    else Asm([], a.events + [Overflow])
  }

  function TakeAll(a: Asm, s: seq<byte>): Asm
  {
    if s == [] then a else Take(TakeAll(a, s[..|s| - 1]), s[|s| - 1])
  }

  /** The assembler's whole history is a function of the bytes received so far. */
  function Assemble(s: seq<byte>): Asm
  {
    TakeAll(NEW_ASM, s)
  }

  /** Reads may be split anywhere. */
  lemma {:induction false} TakeAllConcat(a: Asm, s: seq<byte>, t: seq<byte>)
    ensures TakeAll(a, s + t) == TakeAll(TakeAll(a, s), t)
  {
    hide Take;
    if t == [] {
      assert s + t == s;
    } else {
      TakeAllConcat(a, s, t[..|t| - 1]);
      assert (s + t)[..|s + t| - 1] == s + t[..|t| - 1];
    }
  }

  lemma TakeAllSnoc(a: Asm, s: seq<byte>, b: byte)
    ensures TakeAll(a, s + [b]) == Take(TakeAll(a, s), b)
  {
    assert (s + [b])[..|s|] == s;
  }

  function DropLf(s: seq<byte>): (r: seq<byte>)
    ensures LF !in r && (CR in r ==> CR in s)
  {
    if s == [] then []
    else DropLf(s[..|s| - 1]) + (if s[|s| - 1] == LF then [] else [s[|s| - 1]])
  }

  function Overflows(n: nat): (e: seq<Event>)
    ensures |e| == n
  {
    seq(n, _ => Overflow)
  }

  /** The last `k` elements. */
  function Last(s: seq<byte>, k: nat): seq<byte>
    requires k <= |s|
  {
    s[|s| - k..]
  }

  /** What a segment of received bytes, ended by CR, must hand on: one overflow for every 65
      bytes, then the remaining fewer-than-65 bytes as a line, if there are any. */
  function Expected(segment: seq<byte>): seq<Event>
  {
    var m := DropLf(segment);
    Overflows(|m| / 65) + (if |m| % 65 == 0 then [] else [Command(Last(m, |m| % 65))])
  }

  lemma SmallMod(m: nat)
    ensures m % 65 < 64 ==> (m + 1) % 65 == m % 65 + 1 && (m + 1) / 65 == m / 65
    ensures m % 65 == 64 ==> (m + 1) % 65 == 0 && (m + 1) / 65 == m / 65 + 1
    ensures m % 65 <= m
  {
  }

  /** Closed form of the buffer inside a segment without CR. */
  lemma {:induction false} BufferClosedForm(ev: seq<Event>, s: seq<byte>)
    requires CR !in s
    ensures var m := DropLf(s);
            && |m| % 65 <= |m|
            && TakeAll(Asm([], ev), s) == Asm(Last(m, |m| % 65), ev + Overflows(|m| / 65))
  {
    if s == [] {
      assert ev + Overflows(0) == ev;
    } else {
      var t, b := s[..|s| - 1], s[|s| - 1];
      BufferClosedForm(ev, t);
      var m := DropLf(t);
      SmallMod(|m|);
      if b != LF {
        GrowBuffer(ev, m, b);
      }
    }
  }

  lemma GrowBuffer(ev: seq<Event>, m: seq<byte>, b: byte)
    requires b != CR && b != LF && |m| % 65 <= |m|
    ensures var n := m + [b];
            && |n| % 65 <= |n|
            && Take(Asm(Last(m, |m| % 65), ev + Overflows(|m| / 65)), b)
               == Asm(Last(n, |n| % 65), ev + Overflows(|n| / 65))
  {
    var n := m + [b];
    SmallMod(|m|);
    SmallMod(|n|);
    if |m| % 65 < 64 {
      assert Last(n, |n| % 65) == Last(m, |m| % 65) + [b];
    } else {
      assert Overflows(|n| / 65) == Overflows(|m| / 65) + [Overflow];
      assert ev + Overflows(|m| / 65) + [Overflow] == ev + Overflows(|n| / 65);
    }
  }

  /** A CR-terminated segment of m non-LF bytes causes exactly m/65 overflow BELs and hands on
      exactly its last m mod 65 bytes, or nothing if that is 0. */
  lemma SegmentClosedForm(ev: seq<Event>, s: seq<byte>)
    requires CR !in s
    ensures TakeAll(Asm([], ev), s + [CR]) == Asm([], ev + Expected(s))
  {
    hide TakeAll, DropLf, Overflows;
    BufferClosedForm(ev, s);
    var m := DropLf(s);
    TakeAllSnoc(Asm([], ev), s, CR);
    assert ev + Overflows(|m| / 65) + [Command(Last(m, |m| % 65))]
        == ev + (Overflows(|m| / 65) + [Command(Last(m, |m| % 65))]);
  }

  function Join(segments: seq<seq<byte>>): seq<byte>
  {
    if segments == [] then [] else Join(segments[..|segments| - 1]) + (segments[|segments| - 1] + [CR])
  }

  function ExpectedAll(segments: seq<seq<byte>>): seq<Event>
  {
    if segments == [] then []
    else ExpectedAll(segments[..|segments| - 1]) + Expected(segments[|segments| - 1])
  }

  /** The closed form for a whole stream of CR-terminated segments. */
  lemma {:induction false} StreamClosedForm(segments: seq<seq<byte>>)
    requires forall i :: 0 <= i < |segments| ==> CR !in segments[i]
    ensures Assemble(Join(segments)) == Asm([], ExpectedAll(segments))
  {
    if segments != [] {
      var init, last := segments[..|segments| - 1], segments[|segments| - 1];
      StreamClosedForm(init);
      TakeAllConcat(NEW_ASM, Join(init), last + [CR]);
      SegmentClosedForm(ExpectedAll(init), last);
    }
  }

  /** The buffer never outgrows its array and never holds a terminator. */
  lemma {:induction false} BufferFits(s: seq<byte>)
    ensures var a := Assemble(s); |a.line| <= LINE_MAX && CR !in a.line && LF !in a.line
    ensures forall i :: 0 <= i < |Assemble(s).events| ==>
              var e := Assemble(s).events[i]; e.Command? ==> 0 < |e.line| <= LINE_MAX
  {
    if s != [] {
      BufferFits(s[..|s| - 1]);
    }
  }
}
