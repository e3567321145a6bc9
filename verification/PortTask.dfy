/** `run_port` and `dispatch` of src/transport.rs as imperative code: a task with its line
    buffer, flags and link, and the proof that what it does undisturbed is one run of the
    atomic moves of module `Port`. */
module PortTask {
  import opened Bytes
  import opened Slcan
  import opened Can
  import opened Wire
  import opened LineAssembly
  import opened Protocol
  import opened Port

  /** One received byte processed without interruption. */
  function Turn(line: seq<byte>, open: bool, ts: bool, m: Manager, b: byte, taken: bool, flags: byte): (r: Turned)
    ensures AllValid(r.said)
  {
    if b == CR then
      if line == [] then Turned(line, open, ts, m, []) else Answered(line, open, ts, m, taken, flags)
    else if b == LF then Turned(line, open, ts, m, [])
    else if |line| < LINE_MAX then Turned(line + [b], open, ts, m, [])
    else Turned([], open, ts, m, [Nak])
  }

  /** The moves of one byte taken back to back: assemble, lock region if any, write if any. */
  function Moves(s: Session, m: Manager, taken: bool, flags: byte): (Session, Manager)
    requires s.phase.Ready? && s.chunk != [] && AllValid(s.told)
  {
    var s1 := OnByte(s);
    PlanFitsByte(s);
    var (s2, m2) := if s1.phase.Asking? then OnServe(s1, m, taken, flags) else (s1, m);
    ServeFitsByte(s1, m, taken, flags);
    (if s2.phase.Saying? then OnSay(s2) else s2, m2)
  }

  lemma PlanFitsByte(s: Session)
    requires s.phase.Ready? && s.chunk != [] && AllValid(s.told)
    ensures var s1 := OnByte(s);
            && AllValid(s1.told) && (s1.phase.Saying? ==> s1.told != [])
            && (s1.phase.Asking? ==> CmdFits(s1.phase.c, s1.open))
  {
    hide PlanFor, Take, ValidSent, CmdFits;
    if s.line != [] {
      PlanFits(s.line, s.open, s.ts);
    }
    AcksFit(s.open, s.ts);
  }

  lemma ServeFitsByte(s1: Session, m: Manager, taken: bool, flags: byte)
    requires AllValid(s1.told) && (s1.phase.Asking? ==> CmdFits(s1.phase.c, s1.open))
    ensures s1.phase.Asking? ==> AllValid(OnServe(s1, m, taken, flags).0.told)
  {
    hide Serve, ValidSent, CmdFits;
    if s1.phase.Asking? {
      ServeFits(s1.phase.c, s1.open, s1.ts, m, taken, flags);
    }
  }

  lemma RenderOne(u: Sent)
    requires ValidSent(u)
    ensures RenderAll([u]) == Render(u)
  {
    assert [u][..0] == [];
  }

  /** The uninterrupted turn is exactly those moves: same variables, same manager, same bytes. */
  lemma TurnIsMoves(s: Session, m: Manager, taken: bool, flags: byte)
    requires s.phase.Ready? && s.chunk != [] && AllValid(s.told)
    ensures var (s', m') := Moves(s, m, taken, flags);
            var t := Turn(s.line, s.open, s.ts, m, s.chunk[0], taken, flags);
            && s'.phase.Ready? && s'.chunk == s.chunk[1..]
            && (s'.line, s'.open, s'.ts, m') == (t.line, t.open, t.ts, t.m)
            && s'.told == s.told + t.said && s'.out == s.out + RenderAll(t.said)
  {
    if s.chunk[0] == CR && s.line != [] {
      CommandIsMoves(s, m, taken, flags);
    } else {
      ByteIsMoves(s, m, taken, flags);
    }
  }

  lemma CommandIsMoves(s: Session, m: Manager, taken: bool, flags: byte)
    requires s.phase.Ready? && s.chunk != [] && AllValid(s.told) && s.chunk[0] == CR && s.line != []
    ensures var (s', m') := Moves(s, m, taken, flags);
            var t := Answered(s.line, s.open, s.ts, m, taken, flags);
            && s'.phase.Ready? && s'.chunk == s.chunk[1..]
            && (s'.line, s'.open, s'.ts, m') == (t.line, t.open, t.ts, t.m)
            && s'.told == s.told + t.said && s'.out == s.out + RenderAll(t.said)
  {
    hide PlanFor, ValidSent, Render, RenderAll, Serve;
    PlanFits(s.line, s.open, s.ts);
    match PlanFor(s.line, s.open, s.ts)
    case Say(u, ts') => RenderOne(u);
    case Ask(c) =>
      ServeFits(c, s.open, s.ts, m, taken, flags);
      RenderOne(Serve(c, s.open, m, taken, flags).u);
  }

  lemma ByteIsMoves(s: Session, m: Manager, taken: bool, flags: byte)
    requires s.phase.Ready? && s.chunk != [] && AllValid(s.told) && !(s.chunk[0] == CR && s.line != [])
    ensures var (s', m') := Moves(s, m, taken, flags);
            var t := Turn(s.line, s.open, s.ts, m, s.chunk[0], taken, flags);
            && s'.phase.Ready? && s'.chunk == s.chunk[1..]
            && (s'.line, s'.open, s'.ts, m') == (t.line, t.open, t.ts, t.m)
            && s'.told == s.told + t.said && s'.out == s.out + RenderAll(t.said)
  {
    hide PlanFor, ValidSent, RenderAll, Serve, Answered, Render;
    AcksFit(s.open, s.ts);
    RenderOne(Nak);
    RenderNone();
    assert s.told + [] == s.told;
    assert s.out + [] == s.out;
  }

  lemma RenderNone()
    ensures RenderAll([]) == []
  {
  }

  /** Successive bytes, each with its own driver outcome and status flags. */
  ghost function Turns(t: Turned, s: seq<byte>, taken: nat -> bool, flags: nat -> byte): (r: Turned)
    requires AllValid(t.said)
    ensures AllValid(r.said)
  {
    if s == [] then t
    else
      var n := |s| - 1;
      var p := Turns(t, s[..n], taken, flags);
      var q := Turn(p.line, p.open, p.ts, p.m, s[n], taken(n), flags(n));
      q.(said := p.said + q.said)
  }

  lemma {:induction false} RenderConcat(us: seq<Sent>, vs: seq<Sent>)
    requires AllValid(us) && AllValid(vs)
    ensures AllValid(us + vs) && RenderAll(us + vs) == RenderAll(us) + RenderAll(vs)
  {
    hide ValidSent, Render, RenderAll;
    if vs == [] {
      RenderNone();
      assert us + vs == us;
      assert RenderAll(us) + [] == RenderAll(us);
    } else {
      var init, last := vs[..|vs| - 1], vs[|vs| - 1];
      RenderConcat(us, init);
      RenderSnoc(init, last);
      RenderSnoc(us + init, last);
      assert vs == init + [last] && us + vs == us + init + [last];
    }
  }

  lemma NoneCounted()
    ensures Count([], IsConfirm) == 0 && FramesIn([]) == 0 && FramesIn([] + [Overflow]) == 0 && Count([Nak], IsConfirm) == 0
  {
    assert [] + [Overflow] == [Overflow] && [Overflow][..0] == [] && [Nak][..0] == [];
    assert FramesIn([Overflow][..0]) == 0 && !IsConfirm(Nak);
  }

  lemma OneCounted(line: seq<byte>, said: seq<Sent>)
    requires line != [] && |said| == 1
    ensures FramesIn([] + [Command(line)]) == if IsTxCommand(line) && Parsed(line).Some? then 1 else 0
    ensures Count(said, IsConfirm) == if said[0].Confirm? then 1 else 0
  {
    hide Parsed;
    var one := [] + [Command(line)];
    assert one == [Command(line)] && one[..0] == [] && said[..0] == [];
    assert FramesIn(one[..0]) == 0 && Count(said[..0], IsConfirm) == 0;
    assert IsConfirm(said[0]) <==> said[0].Confirm?;
  }

  lemma {:induction false} CountConcat(us: seq<Sent>, vs: seq<Sent>)
    ensures Count(us + vs, IsConfirm) == Count(us, IsConfirm) + Count(vs, IsConfirm)
  {
    if vs == [] {
      assert us + vs == us;
    } else {
      CountConcat(us, vs[..|vs| - 1]);
      assert (us + vs)[..|us + vs| - 1] == us + vs[..|vs| - 1];
    }
  }

  lemma AddWraps(n: nat, a: nat, b: nat)
    ensures ((n + a) % U32 + b) % U32 == (n + (a + b)) % U32
  {
  }

  /** A turn takes its byte as the line assembler does. */
  lemma TurnTakes(a: Asm, open: bool, ts: bool, m: Manager, b: byte, taken: bool, flags: byte)
    ensures Turn(a.line, open, ts, m, b, taken, flags).line == Take(a, b).line
    ensures Take(a, b).events == a.events + Take(Asm(a.line, []), b).events
  {
    hide Answered;
    if a.line != [] {
      AnsweredClears(a.line, open, ts, m, taken, flags);
    }
  }

  lemma TurnsNone(t: Turned, a: Asm, taken: nat -> bool, flags: nat -> byte)
    requires AllValid(t.said)
    ensures Turns(t, [], taken, flags) == t && TakeAll(a, []) == a
  {
  }

  /** One more byte: the state, the bytes written and the frames confirmed. */
  lemma TurnsSnoc(t: Turned, s: seq<byte>, n: nat, taken: nat -> bool, flags: nat -> byte, out: seq<byte>, tx: nat)
    requires AllValid(t.said) && n < |s|
    ensures var p := Turns(t, s[..n], taken, flags);
            var q, r := Turn(p.line, p.open, p.ts, p.m, s[n], taken(n), flags(n)), Turns(t, s[..n + 1], taken, flags);
            && (r.line, r.open, r.ts, r.m) == (q.line, q.open, q.ts, q.m)
            && out + RenderAll(r.said) == out + RenderAll(p.said) + RenderAll(q.said)
            && (tx + Count(r.said, IsConfirm)) % U32
               == ((tx + Count(p.said, IsConfirm)) % U32 + Count(q.said, IsConfirm)) % U32
  {
    hide Turn, RenderAll, Count;
    var p := Turns(t, s[..n], taken, flags);
    var q := Turn(p.line, p.open, p.ts, p.m, s[n], taken(n), flags(n));
    assert s[..n + 1][..n] == s[..n];
    RenderConcat(p.said, q.said);
    CountConcat(p.said, q.said);
    AddWraps(tx, Count(p.said, IsConfirm), Count(q.said, IsConfirm));
  }

  /** One more byte: the line and the frames counted. */
  lemma TakesSnoc(a0: Asm, s: seq<byte>, n: nat, arrived: nat)
    requires n < |s|
    ensures var a, a' := TakeAll(a0, s[..n]), TakeAll(a0, s[..n + 1]);
            && a' == Take(a, s[n])
            && (arrived + FramesIn(a'.events)) % U32
               == ((arrived + FramesIn(a.events)) % U32 + FramesIn(Take(Asm(a.line, []), s[n]).events)) % U32
  {
    hide FramesIn;
    var a := TakeAll(a0, s[..n]);
    var more := Take(Asm(a.line, []), s[n]).events;
    assert s[..n + 1] == s[..n] + [s[n]];
    TakeAllSnoc(a0, s[..n], s[n]);
    assert Take(a, s[n]).events == a.events + more;
    FramesConcat(a.events, more);
    AddWraps(arrived, FramesIn(a.events), FramesIn(more));
  }

  class Task {
    const line: array<byte>
    var len: nat
    var open: bool
    var timestamp: bool
    /** What has been written to the link. */
    var out: seq<byte>
    /** The counters of this port's interface. */
    var inCount: u32
    var outCount: u32

    ghost predicate Valid()
      reads this
    {
      line.Length == LINE_MAX && len <= line.Length
    }

    ghost function Line(): seq<byte>
      reads this, line
      requires Valid()
    {
      line[..len]
    }

    constructor ()
      ensures Valid() && fresh(line)
      ensures Line() == [] && !open && !timestamp && out == [] && inCount == 0 && outCount == 0
    {
      line := new byte[64](_ => 0);
      len, open, timestamp, out, inCount, outCount := 0, false, false, [], 0, 0;
    }

    /** `dispatch`, one complete line. */
    method Dispatch(cmd: seq<byte>, mgr: CanManager, d: Driver, flags: byte)
      requires Valid() && cmd != [] && mgr as object != this as object
      modifies this`open, this`timestamp, this`out, this`inCount, mgr`twai, mgr`baud, mgr`openCount, mgr`txCount
      ensures Valid()
      ensures var t := Answered(cmd, old(open), old(timestamp), old(mgr.State()), Accepts(d), flags);
              && (open, timestamp, mgr.State()) == (t.open, t.ts, t.m)
              && out == old(out) + RenderAll(t.said)
              && mgr.txCount == (if t.said[0].Confirm? then (old(mgr.txCount) + 1) % U32 else old(mgr.txCount))
      ensures inCount == (if IsTxCommand(cmd) && Parsed(cmd).Some? then (old(inCount) + 1) % U32 else old(inCount))
    {
      hide Parsed, ValidSent, RenderAll, Render, Accepts;
      ghost var t := Answered(cmd, open, timestamp, mgr.State(), Accepts(d), flags);
      PlanFits(cmd, open, timestamp);
      var reply;
      if IsTxCommand(cmd) {
        reply := DispatchTx(cmd, mgr, d);
      } else {
        reply := DispatchControl(cmd, mgr, flags);
      }
      assert t.said[0] == reply;
      assert t.said == [reply];
      RenderOne(reply);
      out := out + Render(reply);
    }

    /** The `t`/`T`/`r`/`R` arm. */
    method DispatchTx(cmd: seq<byte>, mgr: CanManager, d: Driver) returns (reply: Sent)
      requires cmd != [] && IsTxCommand(cmd) && mgr as object != this as object
      modifies this`inCount, mgr`txCount
      ensures var p := PlanFor(cmd, open, timestamp);
              && (p.Say? ==> reply == p.u)
              && (p.Ask? ==> p.c.Transmit? && Shaped(p.c.f) && reply == Serve(p.c, open, mgr.State(), Accepts(d), 0).u)
      ensures mgr.txCount == (if reply.Confirm? then (old(mgr.txCount) + 1) % U32 else old(mgr.txCount))
      ensures inCount == (if Parsed(cmd).Some? then (old(inCount) + 1) % U32 else old(inCount))
    {
      hide Parsed, Accepts, ToEsp;
      var frame := ParseTx(cmd);
      if frame.Some? {
        ParsedIsShaped(cmd);
        inCount := (inCount + 1) % U32;
      }
      if !open {
        return Nak;
      }
      var ok := false;
      if frame.Some? {
        ok := mgr.Transmit(frame.value, d);
      }
      if ok {
        KindIsExt(cmd);
        reply := Confirm(cmd[0] == 'T' as int || cmd[0] == 'R' as int);
      } else {
        reply := Nak;
      }
    }

    /** Every other arm. */
    method DispatchControl(cmd: seq<byte>, mgr: CanManager, flags: byte) returns (reply: Sent)
      requires cmd != [] && !IsTxCommand(cmd) && mgr as object != this as object
      modifies this`open, this`timestamp, mgr`twai, mgr`baud, mgr`openCount
      ensures match PlanFor(cmd, old(open), old(timestamp))
              case Say(u, ts) => reply == u && open == old(open) && timestamp == ts && mgr.State() == old(mgr.State())
              case Ask(c) =>
                && !c.Transmit? && timestamp == old(timestamp)
                && Serve(c, old(open), old(mgr.State()), false, flags) == Served(mgr.State(), open, reply)
    {
      hide Parsed, BaudFromS;
      var c := cmd[0];
      if c == 'V' as int {
        reply := Info(VERSION);
      } else if c == 'N' as int {
        reply := Info(SERIAL);
      } else if c == 'F' as int {
        reply := Info(StatusText(if mgr.twai.Some? then flags else 0));
      } else if c == 'M' as int || c == 'm' as int || c == 'A' as int {
        reply := Ack(Plain);
      } else if c == 'Z' as int {
        if |cmd| > 1 && cmd[1] == '0' as int {
          timestamp := false;
          reply := Ack(StampOff);
        } else if |cmd| > 1 && cmd[1] == '1' as int {
          timestamp := true;
          reply := Ack(StampOn);
        } else {
          reply := Nak;
        }
      } else if c == 'S' as int {
        var ok := false;
        if |cmd| > 1 {
          ok := mgr.SetBitrate(cmd[1]);
        }
        reply := if ok then Ack(Plain) else Nak;
      } else if c == 'O' as int || c == 'L' as int {
        if !open {
          mgr.Open(c == 'L' as int);
          open := true;
        }
        reply := Ack(DidOpen);
      } else if c == 'C' as int {
        if open {
          mgr.Close();
          open := false;
        }
        reply := Ack(DidClose);
      } else {
        reply := Nak;
      }
    }

    /** One iteration of the byte loop. */
    method HandleByte(b: byte, mgr: CanManager, d: Driver, flags: byte)
      requires Valid() && mgr as object != this as object && mgr as object != line as object
      modifies this`len, this`open, this`timestamp, this`out, this`inCount, line
      modifies mgr`twai, mgr`baud, mgr`openCount, mgr`txCount
      ensures Valid()
      ensures var t := Turn(old(Line()), old(open), old(timestamp), old(mgr.State()), b, Accepts(d), flags);
              && (Line(), open, timestamp, mgr.State(), out) == (t.line, t.open, t.ts, t.m, old(out) + RenderAll(t.said))
              && mgr.txCount == (old(mgr.txCount) + Count(t.said, IsConfirm)) % U32
      ensures inCount == (old(inCount) + FramesIn(Take(Asm(old(Line()), []), b).events)) % U32
    {
      hide Answered, Accepts, RenderAll, Count, Parsed, FramesIn;
      RenderNone();
      assert out + [] == out;
      NoneCounted();
      if b == CR {
        if len > 0 {
          Dispatch(line[..len], mgr, d, flags);
          AnsweredClears(old(Line()), old(open), old(timestamp), old(mgr.State()), Accepts(d), flags);
          OneCounted(old(Line()), Answered(old(Line()), old(open), old(timestamp), old(mgr.State()), Accepts(d), flags).said);
          len := 0;
        }
      } else if b == LF {
      } else if len < line.Length {
        line[len] := b;
        len := len + 1;
        assert line[..len] == old(line[..len]) + [b];
      } else {
        len := 0;
        AcksFit(open, timestamp);
        RenderOne(Nak);
        out := out + [BELL];
      }
    }

    /** `Act::Bytes`: the whole chunk, in order. The frames counted are those among the commands
        that the chunk completes. */
    method HandleBytes(rx: seq<byte>, mgr: CanManager, ds: nat -> Driver, flags: nat -> byte)
      requires Valid() && mgr as object != this as object && mgr as object != line as object
      modifies this`len, this`open, this`timestamp, this`out, this`inCount, line
      modifies mgr`twai, mgr`baud, mgr`openCount, mgr`txCount
      ensures Valid()
      ensures var t := Turns(Turned(old(Line()), old(open), old(timestamp), old(mgr.State()), []), rx,
                             (i: nat) => Accepts(ds(i)), flags);
              && (Line(), open, timestamp, mgr.State(), out) == (t.line, t.open, t.ts, t.m, old(out) + RenderAll(t.said))
              && mgr.txCount == (old(mgr.txCount) + Count(t.said, IsConfirm)) % U32
      ensures inCount == (old(inCount) + FramesIn(TakeAll(Asm(old(Line()), []), rx).events)) % U32
    {
      hide Turn, Turns, Accepts, RenderAll, Count, FramesIn, Take, TakeAll;
      ghost var t0 := Turned(Line(), open, timestamp, mgr.State(), []);
      ghost var a0 := Asm(Line(), []);
      ghost var taken: nat -> bool := (i: nat) => Accepts(ds(i));
      RenderNone();
      NoneCounted();
      TurnsNone(t0, a0, taken, flags);
      assert out + [] == out;
      for n := 0 to |rx|
        invariant Valid()
        invariant var t := Turns(t0, rx[..n], taken, flags);
                  && (Line(), open, timestamp, mgr.State(), out) == (t.line, t.open, t.ts, t.m, old(out) + RenderAll(t.said))
                  && mgr.txCount == (old(mgr.txCount) + Count(t.said, IsConfirm)) % U32
        invariant Line() == TakeAll(a0, rx[..n]).line
        invariant inCount == (old(inCount) + FramesIn(TakeAll(a0, rx[..n]).events)) % U32
      {
        ghost var p, a := Turns(t0, rx[..n], taken, flags), TakeAll(a0, rx[..n]);
        TurnsSnoc(t0, rx, n, taken, flags, old(out), old(mgr.txCount));
        TakesSnoc(a0, rx, n, old(inCount));
        TurnTakes(a, p.open, p.ts, p.m, rx[n], taken(n), flags(n));
        HandleByte(rx[n], mgr, ds(n), flags(n));
      }
      assert rx[..|rx|] == rx;
    }

    /** `Act::Frame`: forward the frame if the port is open. */
    method HandleFrame(f: CanFrame, now: nat)
      requires Valid() && Shaped(f)
      modifies this`out, this`outCount
      ensures out == old(out) + (if open then FrameLine(f, if timestamp then Some(now) else None) else [])
      ensures outCount == (if open then (old(outCount) + 1) % U32 else old(outCount))
    {
      hide FrameLine, Body, Stamp;
      if open {
        var buf := new byte[MAX_FRAME_ASCII](_ => 0);
        var n := FormatFrame(f, if timestamp then Some(now) else None, buf);
        out := out + buf[..n];
        outCount := (outCount + 1) % U32;
      }
    }

    /** Leaving `run_port`: give the bus back if this port held it. */
    method HandleStop(mgr: CanManager)
      modifies mgr`twai, mgr`openCount
      ensures mgr.State() == if open then Released(old(mgr.State())) else old(mgr.State())
    {
      if open {
        mgr.Close();
      }
    }
  }
}
