/** The shared CAN manager of src/can.rs: reference-counted controller, bounded transmit,
    receive polling, and the conversions between protocol frames and controller frames. */
module Can {
  import opened Bytes
  import opened Hex
  import opened Slcan

  datatype BaudRate =
    | B125K
    | B250K
    | B500K
    | B1000K
    | Custom(prescaler: nat, jump: nat, tseg1: nat, tseg2: nat)

  const DEFAULT_BAUD: BaudRate := B500K

  function BaudFromS(digit: byte): Option<BaudRate>
  {
    if digit == '2' as int then Some(Custom(80, 3, 15, 4))
    else if digit == '3' as int then Some(Custom(40, 3, 15, 4))
    else if digit == '4' as int then Some(B125K)
    else if digit == '5' as int then Some(B250K)
    else if digit == '6' as int then Some(B500K)
    else if digit == '7' as int then Some(Custom(4, 3, 16, 8))
    else if digit == '8' as int then Some(B1000K)
    else None
  }

  /** The bitrate in kbit/s: an 80 MHz clock through the prescaler, in quanta of one plus the
      two time segments. */
  function Kbit(b: BaudRate): nat
    requires b.Custom? ==> b.prescaler > 0
  {
    match b
    case B125K => 125
    case B250K => 250
    case B500K => 500
    case B1000K => 1000
    case Custom(prescaler, _, tseg1, tseg2) => 80_000 / (prescaler * (1 + tseg1 + tseg2))
  }

  /** The bitrate table of the protocol; S0 and S1 are unsupported. */
  lemma BitrateTable(digit: byte)
    ensures BaudFromS(digit).Some? <==> '2' as int <= digit <= '8' as int
    ensures BaudFromS(digit).Some? ==>
              var b := BaudFromS(digit).value;
              && (b.Custom? ==> b.prescaler > 0)
              && Kbit(b) == [50, 100, 125, 250, 500, 800, 1000][digit - '2' as int]
  {
    assert 80 * (1 + 15 + 4) == 1600 && 40 * (1 + 15 + 4) == 800 && 4 * (1 + 16 + 8) == 100;
  }

  /** A started controller: the bitrate and mode it was configured with. */
  datatype Twai = Twai(baud: BaudRate, listenOnly: bool)

  datatype Manager = Manager(twai: Option<Twai>, baud: BaudRate, openCount: nat)

  const NEW_MANAGER: Manager := Manager(None, DEFAULT_BAUD, 0)

  function Opened(m: Manager, listenOnly: bool): Manager
  {
    Manager(if m.openCount == 0 then Some(Twai(m.baud, listenOnly)) else m.twai,
            m.baud, (m.openCount + 1) % U32)
  }

  function Released(m: Manager): Manager
  {
    if m.openCount == 0 then m
    else Manager(if m.openCount == 1 then None else m.twai, m.baud, m.openCount - 1)
  }

  predicate RateAccepted(m: Manager, digit: byte)
  {
    m.openCount == 0 && BaudFromS(digit).Some?
  }

  function Rated(m: Manager, digit: byte): Manager
  {
    if RateAccepted(m, digit) then m.(baud := BaudFromS(digit).value) else m
  }

  // ---- Controller frames -----------------------------------------------------------------

  datatype EspId = Standard(raw: nat) | Extended(raw: nat)

  datatype EspFrame = EspFrame(id: EspId, remote: bool, dlc: nat, data: seq<byte>)

  /** What the driver's own constructors guarantee. */
  predicate ValidEsp(e: EspFrame)
  {
    && e.id.raw <= (if e.id.Standard? then 0x7FF else 0x1FFF_FFFF)
    && e.dlc <= 8
    && |e.data| == (if e.remote then 0 else e.dlc)
  }

  /** The identifier is one a controller can send. */
  predicate IdInRange(f: CanFrame)
  {
    f.id <= (if f.ext then 0x1FFF_FFFF else 0x7FF)
  }

  /** A frame as it can appear on the bus. */
  predicate OnBus(f: CanFrame)
  {
    Canonical(f) && IdInRange(f)
  }

  /** `to_esp`; a standard identifier is truncated to 16 bits before its range check. */
  function ToEsp(f: CanFrame): (e: Option<EspFrame>)
    requires Shaped(f)
    ensures e.Some? ==> ValidEsp(e.value)
  {
    var raw := if f.ext then f.id else f.id % 0x1_0000;
    if raw > (if f.ext then 0x1FFF_FFFF else 0x7FF) then None
    else
      var id := if f.ext then Extended(raw) else Standard(raw);
      Some(if f.rtr then EspFrame(id, true, f.dlc, []) else EspFrame(id, false, f.dlc, f.data[..f.dlc]))
  }

  function FromEsp(e: EspFrame): (f: CanFrame)
    requires ValidEsp(e)
  {
    CanFrame(e.id.raw, e.id.Extended?, e.remote, e.dlc, e.data + Zeros(8 - |e.data|))
  }

  /** Everything received from the controller is a canonical in-range frame. */
  lemma ReceivedIsOnBus(e: EspFrame)
    requires ValidEsp(e)
    ensures OnBus(FromEsp(e))
  {
    Pow16Values();
    var f := FromEsp(e);
    assert f.data[..PayloadLen(f)] == e.data;
  }

  /** The controller carries a frame unchanged exactly when its identifier is in range. */
  lemma EspRoundTrip(f: CanFrame)
    requires Shaped(f)
    ensures ToEsp(f).Some? && FromEsp(ToEsp(f).value) == Canon(f) <==> IdInRange(f)
    ensures IdInRange(f) <==> if f.ext then f.id < 0x2000_0000 else f.id < 0x800
  {
    if IdInRange(f) {
      assert f.ext || f.id % 0x1_0000 == f.id;
      var e := ToEsp(f).value;
      assert e.data == f.data[..PayloadLen(f)];
    }
  }

  /** What the controller is given, field by field: identifier, width, remote flag, length, and
      each payload byte at its place. */
  lemma EspFields(f: CanFrame)
    requires Shaped(f) && if f.ext then f.id < 0x2000_0000 else f.id < 0x800
    ensures ToEsp(f).Some?
    ensures var e := ToEsp(f).value;
            && e.id.raw == f.id && (e.id.Extended? <==> f.ext) && (e.remote <==> f.rtr) && e.dlc == f.dlc
            && |e.data| == (if f.rtr then 0 else f.dlc)
            && forall i :: 0 <= i < |e.data| ==> e.data[i] == f.data[i]
  {
    assert f.ext || f.id % 0x1_0000 == f.id;
  }

  /** What is taken from the controller, field by field. */
  lemma FrameFields(e: EspFrame)
    requires ValidEsp(e)
    ensures var f := FromEsp(e);
            && f.id == e.id.raw && (f.ext <==> e.id.Extended?) && (f.rtr <==> e.remote) && f.dlc == e.dlc && |f.data| == 8
            && forall i :: 0 <= i < 8 ==> f.data[i] == if i < |e.data| then e.data[i] else 0
  {
  }

  /** The 16-bit truncation can alias identifiers in general ... */
  lemma TruncationAliases()
    ensures var f := CanFrame(0x1_0123, false, false, 0, Zeros(8));
            Shaped(f) && ToEsp(f) == Some(EspFrame(Standard(0x123), false, 0, []))
  {
    assert 0x1_0123 % 0x1_0000 == 0x123;
    assert Zeros(8)[..0] == [];
  }

  /** For an identifier of at most three digits the range check is exact. */
  lemma RangeIsExact(f: CanFrame)
    requires Shaped(f) && IdFits(f)
    ensures (f.ext || f.id % 0x1_0000 == f.id) && (ToEsp(f).Some? <==> IdInRange(f))
  {
    Pow16Values();
    assert f.ext || f.id < 4096;
  }

  /** ... but never on what the parser produces: there the range check is exact. */
  lemma TruncationLossless(line: seq<byte>)
    requires Parsed(line).Some?
    ensures var f := Parsed(line).value;
            && Shaped(f)
            && (f.ext || f.id % 0x1_0000 == f.id)
            && (ToEsp(f).Some? <==> IdInRange(f))
  {
    ParsedSpells(line);
    RangeIsExact(Parsed(line).value);
  }

  /** Gateway transparency: an accepted line with an in-range identifier comes back from the
      other side as its own consumed prefix with the hex digits upper-cased, plus CR. */
  lemma GatewayTransparent(line: seq<byte>)
    requires Parsed(line).Some? && IdInRange(Parsed(line).value)
    ensures var f := Parsed(line).value;
            && Shaped(f) && |Body(f)| <= |line|
            && ToEsp(f).Some?
            && Shaped(FromEsp(ToEsp(f).value))
            && FrameLine(FromEsp(ToEsp(f).value), None) == UpperTail(line[..|Body(f)|]) + [CR]
  {
    var f := Parsed(line).value;
    ParsedSpells(line);
    EspRoundTrip(f);
    assert Canon(f) == f;
    assert Body(f) + [] == Body(f);
  }

  // ---- Transmission ----------------------------------------------------------------------

  /** What the driver answers to one transmit attempt. */
  datatype Answer = Ok | WouldBlock | Other

  const TX_RETRIES: nat := 50

  /** The driver's answers to successive attempts: an arbitrary adversary. */
  type Driver = nat -> Answer

  /** The driver takes the frame within the retry budget, blocking until then. */
  ghost predicate Accepts(d: Driver)
  {
    exists k: nat :: k <= 50 && d(k) == Ok && forall j: nat :: j < k ==> d(j) == WouldBlock
  }

  /** `try_transmit`: at most 51 attempts whatever the driver answers, stopping at the first
      answer that is not `WouldBlock`. */
  method TryTransmit(d: Driver) returns (ok: bool, attempts: nat)
    ensures 1 <= attempts <= 51
    ensures ok <==> Accepts(d)
    ensures forall j: nat :: j < attempts - 1 ==> d(j) == WouldBlock
    ensures !ok ==> d(attempts - 1) == Other || (d(attempts - 1) == WouldBlock && attempts == 51)
  {
    var tries := 0;
    attempts := 0;
    while true
      invariant attempts == tries <= TX_RETRIES
      invariant forall j: nat :: j < tries ==> d(j) == WouldBlock
      decreases TX_RETRIES - tries
    {
      var answer := d(attempts);
      attempts := attempts + 1;
      match answer {
        case Ok => return true, attempts;
        case WouldBlock =>
          tries := tries + 1;
          if tries > TX_RETRIES {
            return false, attempts;
          }
        case Other => return false, attempts;
      }
    }
  }

  /** `CanManager`, together with the frame counters it advances. */
  class CanManager {
    var twai: Option<Twai>
    var baud: BaudRate
    var openCount: nat
    var txCount: u32
    var rxCount: u32

    ghost function State(): Manager
      reads this
    {
      Manager(twai, baud, openCount)
    }

    constructor ()
      ensures State() == NEW_MANAGER && txCount == 0 && rxCount == 0
    {
      twai, baud, openCount, txCount, rxCount := None, DEFAULT_BAUD, 0, 0, 0;
    }

    method SetBitrate(digit: byte) returns (ok: bool)
      modifies this`baud
      ensures State() == Rated(old(State()), digit)
      ensures ok == RateAccepted(old(State()), digit)
    {
      if openCount != 0 {
        return false;
      }
      match BaudFromS(digit) {
        case Some(b) =>
          baud := b;
          return true;
        case None => return false;
      }
    }

    method Open(listenOnly: bool)
      modifies this`twai, this`openCount
      ensures State() == Opened(old(State()), listenOnly)
    {
      if openCount == 0 {
        twai := Some(Twai(baud, listenOnly));
      }
      openCount := (openCount + 1) % U32;
    }

    method Close()
      modifies this`twai, this`openCount
      ensures State() == Released(old(State()))
    {
      if openCount > 0 {
        openCount := openCount - 1;
        if openCount == 0 {
          twai := None;
        }
      }
    }

    method Transmit(frame: CanFrame, d: Driver) returns (ok: bool)
      requires Shaped(frame)
      modifies this`txCount
      ensures ok <==> twai.Some? && ToEsp(frame).Some? && Accepts(d)
      ensures txCount == (if ok then (old(txCount) + 1) % U32 else old(txCount))
    {
      if twai.None? {
        return false;
      }
      var esp := ToEsp(frame);
      if esp.None? {
        return false;
      }
      var attempts;
      ok, attempts := TryTransmit(d);
      if ok {
        txCount := (txCount + 1) % U32;
      }
    }

    /** `poll_rx`, given what the driver's receive would return. */
    method PollRx(received: Option<EspFrame>) returns (f: Option<CanFrame>)
      requires received.Some? ==> ValidEsp(received.value)
      modifies this`rxCount
      ensures f == if twai.Some? && received.Some? then Some(FromEsp(received.value)) else None
      ensures rxCount == (if f.Some? then (old(rxCount) + 1) % U32 else old(rxCount))
    {
      if twai.None? || received.None? {
        return None;
      }
      rxCount := (rxCount + 1) % U32;
      return Some(FromEsp(received.value));
    }

    /** One lock region of `can_rx_task`: drains at most 16 frames, in order, none twice. */
    method PollRound(fifo: seq<EspFrame>) returns (published: seq<CanFrame>, got: bool)
      requires forall i :: 0 <= i < |fifo| ==> ValidEsp(fifo[i])
      modifies this`rxCount
      ensures |published| == (if twai.None? then 0 else if |fifo| < 16 then |fifo| else 16)
      ensures forall i :: 0 <= i < |published| ==> published[i] == FromEsp(fifo[i])
      ensures got == (published != [])
      ensures rxCount == (old(rxCount) + |published|) % U32
    {
      published, got := [], false;
      for k := 0 to 16
        invariant |published| == k && k <= |fifo| && (k > 0 ==> twai.Some?)
        invariant forall i :: 0 <= i < k ==> published[i] == FromEsp(fifo[i])
        invariant got == (published != [])
        invariant rxCount == (old(rxCount) + k) % U32
      {
        var f := PollRx(if k < |fifo| then Some(fifo[k]) else None);
        if f.None? {
          break;
        }
        published := published + [f.value];
        got := true;
      }
    }
  }
}
