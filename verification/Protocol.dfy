/** The dispatcher of src/transport.rs: what each command line asks of the shared manager, how it
    is answered, and the protocol table it implements. */
module Protocol {
  import opened Bytes
  import opened Hex
  import opened Slcan
  import opened Can
  import opened Wire
  import opened LineAssembly

  /** What a command asks of the shared manager; each is served in one lock region. */
  datatype Cmd =
    | OpenBus(listenOnly: bool)
    | CloseBus
    | SetRate(digit: byte)
    | Status
    | Transmit(f: CanFrame)

  /** A command is either answered at once or has to take the manager's lock. */
  datatype Plan = Say(u: Sent, ts: bool) | Ask(c: Cmd)

  const VERSION: seq<byte> := Ascii("V1013")
  const SERIAL: seq<byte> := Ascii("N1234")

  predicate IsTxCommand(line: seq<byte>)
    requires line != []
  {
    FrameKind(line[0]).Some?
  }

  function PlanFor(line: seq<byte>, open: bool, ts: bool): Plan
    requires line != []
  {
    var c := line[0];
    if c == 'V' as int then Say(Info(VERSION), ts)
    else if c == 'N' as int then Say(Info(SERIAL), ts)
    else if c == 'F' as int then Ask(Status)
    else if c == 'M' as int || c == 'm' as int || c == 'A' as int then Say(Ack(Plain), ts)
    else if c == 'Z' as int then
      if |line| > 1 && line[1] == '0' as int then Say(Ack(StampOff), false)
      else if |line| > 1 && line[1] == '1' as int then Say(Ack(StampOn), true)
      else Say(Nak, ts)
    else if c == 'S' as int then
      if |line| > 1 then Ask(SetRate(line[1])) else Say(Nak, ts)
    else if c == 'O' as int || c == 'L' as int then
      if open then Say(Ack(DidOpen), ts) else Ask(OpenBus(c == 'L' as int))
    else if c == 'C' as int then
      if open then Ask(CloseBus) else Say(Ack(DidClose), ts)
    else if IsTxCommand(line) then
      if open && Parsed(line).Some? then Ask(Transmit(Parsed(line).value)) else Say(Nak, ts)
    else Say(Nak, ts)
  }

  datatype Served = Served(m: Manager, open: bool, u: Sent)

  function StatusText(flags: byte): seq<byte>
  {
    ['F' as int, HexDigit(flags / 16), HexDigit(flags % 16)]
  }

  /** The manager's side of a command; `taken` says whether the driver takes the frame, and
      `flags` is the controller's error byte. */
  function Serve(c: Cmd, open: bool, m: Manager, taken: bool, flags: byte): Served
    requires c.Transmit? ==> Shaped(c.f)
  {
    match c
    case OpenBus(listenOnly) => Served(Opened(m, listenOnly), true, Ack(DidOpen))
    case CloseBus => Served(Released(m), false, Ack(DidClose))
    case SetRate(digit) => Served(Rated(m, digit), open, if RateAccepted(m, digit) then Ack(Plain) else Nak)
    case Status => Served(m, open, Info(StatusText(if m.twai.Some? then flags else 0)))
    case Transmit(f) =>
      Served(m, open, if m.twai.Some? && ToEsp(f).Some? && taken then Confirm(f.ext) else Nak)
  }

  /** When a command is issued relative to the port's own flag. */
  predicate CmdFits(c: Cmd, open: bool)
  {
    match c
    case OpenBus(_) => !open
    case CloseBus => open
    case Transmit(f) => open && Shaped(f) && IdFits(f)
    case _ => true
  }

  /** A reply matches the flags the port has after it. */
  predicate ReplyFits(u: Sent, open: bool, ts: bool)
  {
    && ValidSent(u) && !u.Forward?
    && (u == Ack(DidOpen) ==> open) && (u == Ack(DidClose) ==> !open)
    && (u == Ack(StampOn) ==> ts) && (u == Ack(StampOff) ==> !ts)
  }

  lemma TextsFit(open: bool, ts: bool)
    ensures ReplyFits(Info(VERSION), open, ts) && ReplyFits(Info(SERIAL), open, ts)
  {
    assert VERSION[0] == 'V' as int && SERIAL[0] == 'N' as int;
  }

  lemma AcksFit(open: bool, ts: bool)
    ensures ReplyFits(Nak, open, ts) && ReplyFits(Ack(Plain), open, ts)
    ensures ReplyFits(Ack(StampOn), open, true) && ReplyFits(Ack(StampOff), open, false)
    ensures ReplyFits(Ack(DidOpen), true, ts) && ReplyFits(Ack(DidClose), false, ts)
    ensures ValidSent(Nak)
  {
  }

  lemma ParsedIsShaped(line: seq<byte>)
    requires Parsed(line).Some?
    ensures Shaped(Parsed(line).value) && IdFits(Parsed(line).value)
  {
    hide Parsed, Spells;
    ParsedSpells(line);
  }

  lemma PlanFits(line: seq<byte>, open: bool, ts: bool)
    requires line != []
    ensures match PlanFor(line, open, ts)
            case Say(u, ts') =>
              ReplyFits(u, open, ts') && !u.Confirm? && (u != Ack(StampOn) && u != Ack(StampOff) ==> ts' == ts)
            case Ask(c) => CmdFits(c, open)
  {
    hide Parsed, Canonical, Spells, PlainText, IsTxCommand, ReplyFits;
    TextsFit(open, ts);
    AcksFit(open, ts);
    if Parsed(line).Some? {
      ParsedIsShaped(line);
    }
  }

  lemma ServeFits(c: Cmd, open: bool, ts: bool, m: Manager, taken: bool, flags: byte)
    requires CmdFits(c, open)
    ensures var r := Serve(c, open, m, taken, flags);
            ReplyFits(r.u, r.open, ts) && r.u != Ack(StampOn) && r.u != Ack(StampOff)
            && (r.u != Ack(DidOpen) && r.u != Ack(DidClose) ==> r.open == open)
  {
    hide HexDigit;
    if c.Status? {
      var f := if m.twai.Some? then flags else 0;
      DigitNibble(f / 16);
      DigitNibble(f % 16);
      HexIsPrintable([HexDigit(f / 16), HexDigit(f % 16)]);
      var t := StatusText(f);
      assert t == ['F' as int] + [HexDigit(f / 16), HexDigit(f % 16)];
    }
  }

  // ---- The protocol table -----------------------------------------------------------------------

  /** A port's variables and the manager, after a turn, with the units it said. */
  datatype Turned = Turned(line: seq<byte>, open: bool, ts: bool, m: Manager, said: seq<Sent>)

  /** A command line answered without interruption. */
  function Answered(line: seq<byte>, open: bool, ts: bool, m: Manager, taken: bool, flags: byte): (r: Turned)
    requires line != []
    ensures AllValid(r.said)
  {
    PlanFits(line, open, ts);
    match PlanFor(line, open, ts)
    case Say(u, ts') => Turned([], open, ts', m, [u])
    case Ask(c) =>
      ServeFits(c, open, ts, m, taken, flags);
      var r := Serve(c, open, m, taken, flags);
      Turned([], r.open, ts, r.m, [r.u])
  }

  /** The protocol table, channel commands: `O` and `L` always end open and choose the mode only
      when they start the controller; `C` always ends closed; a repeated one changes nothing. */
  lemma ChannelCommands(line: seq<byte>, open: bool, ts: bool, m: Manager, taken: bool, flags: byte)
    requires line != []
    ensures var t, c := Answered(line, open, ts, m, taken, flags), line[0];
            && (c == 'O' as int || c == 'L' as int ==>
                  && t.said == [Ack(DidOpen)] && t.open && (open ==> t.m == m)
                  && (!open && m.openCount == 0 ==> t.m.twai == Some(Twai(m.baud, c == 'L' as int))))
            && (c == 'C' as int ==> t.said == [Ack(DidClose)] && !t.open && (!open ==> t.m == m))
            && (c != 'O' as int && c != 'L' as int && c != 'C' as int ==>
                  t.open == open && t.m.openCount == m.openCount && t.m.twai == m.twai)
  {
    hide Parsed, ToEsp, BaudFromS;
  }

  /** The protocol table, settings: `Sn` is acknowledged exactly for S2 to S8 while the channel is
      closed everywhere, and then sets that bitrate; `Z0`/`Z1` set the timestamp mode. */
  lemma SettingCommands(line: seq<byte>, open: bool, ts: bool, m: Manager, taken: bool, flags: byte)
    requires line != []
    ensures var t, c := Answered(line, open, ts, m, taken, flags), line[0];
            && (c == 'S' as int ==>
                  if |line| > 1 && '2' as int <= line[1] <= '8' as int && m.openCount == 0
                  then t.said == [Ack(Plain)] && BaudFromS(line[1]) == Some(t.m.baud)
                  else t.said == [Nak] && t.m == m)
            && (c != 'S' as int ==> t.m.baud == m.baud)
            && (c == 'Z' as int ==>
                  if |line| > 1 && (line[1] == '0' as int || line[1] == '1' as int)
                  then t.said == [Ack(if t.ts then StampOn else StampOff)] && (t.ts <==> line[1] == '1' as int)
                  else t.said == [Nak] && t.ts == ts)
            && (c != 'Z' as int ==> t.ts == ts)
  {
    hide Parsed, ToEsp, BaudFromS;
    if |line| > 1 {
      BitrateTable(line[1]);
    }
  }

  /** The protocol table, frames: a transmit command is confirmed, with the letter of its id
      width, exactly when the port is open, the line is a valid frame with an identifier in
      range, the controller is on and the driver takes the frame; otherwise it gets BEL. */
  lemma FrameCommands(line: seq<byte>, open: bool, ts: bool, m: Manager, taken: bool, flags: byte)
    requires line != [] && IsTxCommand(line)
    ensures var t := Answered(line, open, ts, m, taken, flags);
            && t.m == m
            && t.said == (if open && Parsed(line).Some? && IdInRange(Parsed(line).value) && m.twai.Some? && taken
                          then [Confirm(line[0] == 'T' as int || line[0] == 'R' as int)] else [Nak])
  {
    hide Parsed, ToEsp, Pow16;
    if Parsed(line).Some? {
      ParsedIsShaped(line);
      RangeIsExact(Parsed(line).value);
      KindIsExt(line);
    }
  }

  /** The protocol table, the rest: version, serial number, the status byte in hex (00 while the
      controller is off), tolerated no-ops, and BEL for everything else. */
  lemma OtherCommands(line: seq<byte>, open: bool, ts: bool, m: Manager, taken: bool, flags: byte)
    requires line != []
    ensures var t, c := Answered(line, open, ts, m, taken, flags), line[0];
            && (c == 'V' as int ==> t.said == [Info(Ascii("V1013"))])
            && (c == 'N' as int ==> t.said == [Info(Ascii("N1234"))])
            && (c == 'F' as int ==> |t.said| == 1 && t.said[0].Info? && SaysFlags(t.said[0].text, if m.twai.Some? then flags else 0))
            && (c == 'M' as int || c == 'm' as int || c == 'A' as int ==> t.said == [Ack(Plain)])
            && (!IsTxCommand(line) && c as char !in "VNFMmAZSOLC" ==> t.said == [Nak])
  {
    hide Parsed, ToEsp, BaudFromS, HexValue, SaysFlags;
    StatusSays(flags);
    StatusSays(0);
  }

  /** `F` and the two hex digits of the status byte. */
  predicate SaysFlags(text: seq<byte>, flags: byte)
  {
    |text| == 3 && text[0] == 'F' as int && AllHex(text[1..]) && HexValue(text[1..]) == flags
  }

  lemma StatusSays(flags: byte)
    ensures SaysFlags(StatusText(flags), flags)
  {
    var hi, lo := HexDigit(flags / 16), HexDigit(flags % 16);
    assert flags % 16 % 16 == flags % 16;
    ByteDigits(flags, hi, HexDigit(flags));
    HexValueSnoc([], hi);
    HexValueSnoc([hi], lo);
    assert StatusText(flags)[1..] == [] + [hi] + [lo];
  }

  lemma AnsweredClears(line: seq<byte>, open: bool, ts: bool, m: Manager, taken: bool, flags: byte)
    requires line != []
    ensures Answered(line, open, ts, m, taken, flags).line == [] && |Answered(line, open, ts, m, taken, flags).said| == 1
  {
    hide PlanFor, Serve;
  }

  /** The confirmation letter, chosen from the command letter, says whether the id is extended. */
  lemma KindIsExt(cmd: seq<byte>)
    requires Parsed(cmd).Some?
    ensures Parsed(cmd).value.ext <==> cmd[0] == 'T' as int || cmd[0] == 'R' as int
  {
  }

  /** The reply a line may get from a port in the given channel state, by the protocol table. */
  predicate Answers(line: seq<byte>, open: bool, u: Sent)
    requires line != []
  {
    var c := line[0];
    if c == 'O' as int || c == 'L' as int then u == Ack(DidOpen)
    else if c == 'C' as int then u == Ack(DidClose)
    else if c == 'S' as int then
      u == Nak || (u == Ack(Plain) && |line| > 1 && '2' as int <= line[1] <= '8' as int)
    else if c == 'Z' as int then
      u == if |line| > 1 && line[1] == '0' as int then Ack(StampOff)
           else if |line| > 1 && line[1] == '1' as int then Ack(StampOn)
           else Nak
    else if IsTxCommand(line) then
      || u == Nak
      || (open && Parsed(line).Some? && IdInRange(Parsed(line).value)
          && u == Confirm(c == 'T' as int || c == 'R' as int))
    else if c == 'V' as int then u == Info(Ascii("V1013"))
    else if c == 'N' as int then u == Info(Ascii("N1234"))
    else if c == 'F' as int then u.Info? && exists flags: byte :: SaysFlags(u.text, flags)
    else if c == 'M' as int || c == 'm' as int || c == 'A' as int then u == Ack(Plain)
    else u == Nak
  }

  /** The table in bytes. */
  lemma TableInBytes(line: seq<byte>, open: bool, u: Sent)
    requires line != [] && Answers(line, open, u) && ValidSent(u)
    ensures var c, out := line[0] as char, Render(u);
            if c in "OLCMmA" then out == Ascii("\r")
            else if c in "SZ" then out == Ascii("\r") || out == [7]
            else if c in "tr" then out == Ascii("z\r") || out == [7]
            else if c in "TR" then out == Ascii("Z\r") || out == [7]
            else if c == 'V' then out == Ascii("V1013") + Ascii("\r")
            else if c == 'N' then out == Ascii("N1234") + Ascii("\r")
            else if c == 'F' then |out| == 4 && out[0] == 'F' as int && AllHex(out[1..3]) && out[3] == '\r' as int
            else out == [7]
  {
    hide Parsed, IdInRange, OpenOf, HexValue, Nibble, PlainText, Render;
    if u.Info? {
      ReplyBytes(u.text);
      if |u.text| == 3 {
        StatusBytes(u.text);
      }
    }
    PlainBytes();
  }

  lemma PlainBytes()
    ensures Render(Nak) == [7] && forall cause :: Render(Ack(cause)) == Ascii("\r")
    ensures Render(Confirm(false)) == Ascii("z\r") && Render(Confirm(true)) == Ascii("Z\r")
  {
  }

  lemma StatusBytes(t: seq<byte>)
    requires |t| == 3
    ensures var out := t + Ascii("\r");
            |out| == 4 && out[0] == t[0] && out[1..3] == t[1..] && out[3] == '\r' as int
  {
  }

  /** Every line handled by the dispatcher is answered as the table says. */
  lemma AnsweredByTable(line: seq<byte>, open: bool, ts: bool, m: Manager, taken: bool, flags: byte)
    requires line != []
    ensures var t := Answered(line, open, ts, m, taken, flags);
            |t.said| == 1 && Answers(line, open, t.said[0])
  {
    hide PlanFor, Serve, Parsed, SaysFlags, IdInRange;
    ChannelCommands(line, open, ts, m, taken, flags);
    SettingCommands(line, open, ts, m, taken, flags);
    if IsTxCommand(line) {
      FrameCommands(line, open, ts, m, taken, flags);
    }
    OtherCommands(line, open, ts, m, taken, flags);
  }

  /** What happens to the manager and the bus. */
  datatype MgrEvent = Rate(baud: BaudRate) | Up(listenOnly: bool) | Down | Put(f: CanFrame)

  /** The command puts a frame on the bus: a controller is on, the frame is one it can send,
      and the driver takes it. */
  predicate Sends(c: Cmd, m: Manager, taken: bool)
  {
    c.Transmit? && m.twai.Some? && IdInRange(c.f) && taken
  }

  /** What a lock region does. */
  function Deed(c: Cmd, m: Manager, taken: bool): seq<MgrEvent>
  {
    match c
    case OpenBus(listenOnly) => [Up(listenOnly)]
    case CloseBus => [Down]
    case SetRate(d) => if RateAccepted(m, d) then [Rate(BaudFromS(d).value)] else []
    case Transmit(f) => if Sends(c, m, taken) then [Put(f)] else []
    case Status => []
  }

  /** What a host that knows its line, the channel state before it and the reply can tell about
      the manager: `O`/`L` on a closed channel took a reference, `C` on an open one gave it back,
      an `Sn` answered with CR set its bitrate, a confirmed line put its frame on the bus, and
      nothing else happened. */
  function Told(e: Event, open: bool, u: Sent): seq<MgrEvent>
  {
    if e.Overflow? || e.line == [] then []
    else
      var c := e.line[0];
      if (c == 'O' as int || c == 'L' as int) && !open then [Up(c == 'L' as int)]
      else if c == 'C' as int && open then [Down]
      else if c == 'S' as int && u == Ack(Plain) && |e.line| > 1 && BaudFromS(e.line[1]).Some? then
        [Rate(BaudFromS(e.line[1]).value)]
      else if u.Confirm? && Parsed(e.line).Some? then [Put(Parsed(e.line).value)]
      else []
  }

  /** A line answered without the lock leaves the manager alone, and the reply tells so. */
  lemma SayTold(line: seq<byte>, open: bool, ts: bool)
    requires line != [] && PlanFor(line, open, ts).Say?
    ensures var u := PlanFor(line, open, ts).u;
            Answers(line, open, u) && Told(Command(line), open, u) == []
  {
    hide Parsed, Answers, ReplyFits, CmdFits;
    PlanFits(line, open, ts);
    AnsweredByTable(line, open, ts, NEW_MANAGER, false, 0);
  }

  lemma OverflowTold(open: bool)
    ensures Told(Overflow, open, Nak) == []
  {
  }

  /** The reply to a lock region tells exactly what it did. */
  lemma ServeTold(line: seq<byte>, open: bool, ts: bool, m: Manager, taken: bool, flags: byte)
    requires line != [] && PlanFor(line, open, ts).Ask?
    ensures var c := PlanFor(line, open, ts).c;
            && CmdFits(c, open)
            && Answers(line, open, Serve(c, open, m, taken, flags).u)
            && Told(Command(line), open, Serve(c, open, m, taken, flags).u) == Deed(c, m, taken)
  {
    hide Parsed, Answers, ReplyFits, IdFits;
    PlanFits(line, open, ts);
    AnsweredByTable(line, open, ts, m, taken, flags);
    var c := PlanFor(line, open, ts).c;
    SendsIffConfirmed(c, open, m, taken, flags);
  }

  /** A frame from the parser is confirmed exactly when it is sent. */
  lemma SendsIffConfirmed(c: Cmd, open: bool, m: Manager, taken: bool, flags: byte)
    requires CmdFits(c, open)
    ensures Serve(c, open, m, taken, flags).u.Confirm? <==> Sends(c, m, taken)
  {
    hide Canonical;
    if c.Transmit? {
      RangeIsExact(c.f);
    }
  }

  /** The valid frames among the commands. */
  function FramesIn(events: seq<Event>): nat
  {
    if events == [] then 0
    else FramesIn(events[..|events| - 1]) + (if IsFrame(events[|events| - 1]) then 1 else 0)
  }

  predicate IsFrame(e: Event)
  {
    e.Command? && e.line != [] && IsTxCommand(e.line) && Parsed(e.line).Some?
  }

  lemma {:induction false} FramesConcat(a: seq<Event>, b: seq<Event>)
    ensures FramesIn(a + b) == FramesIn(a) + FramesIn(b)
  {
    hide IsFrame;
    if b == [] {
      assert a + b == a;
    } else {
      FramesConcat(a, b[..|b| - 1]);
      assert (a + b)[..|a + b| - 1] == a + b[..|b| - 1];
    }
  }

  lemma FramesSnoc(events: seq<Event>, e: Event)
    ensures FramesIn(events + [e]) == FramesIn(events) + if IsFrame(e) then 1 else 0
  {
    hide IsFrame;
    assert (events + [e])[..|events|] == events;
  }
}
