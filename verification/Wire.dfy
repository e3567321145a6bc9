/** What a port sends to its host: one unit per reply or forwarded frame, and its bytes. */
module Wire {
  import opened Bytes
  import opened Hex
  import opened Slcan
  import opened Can

  /** Which command a bare CR acknowledges, as far as the port's own flags are concerned. */
  datatype Cause = DidOpen | DidClose | StampOn | StampOff | Plain

  datatype Sent =
    | Ack(cause: Cause)
    | Nak
    | Info(text: seq<byte>)
    | Confirm(ext: bool)
    | Forward(f: CanFrame, ts: Option<nat>)

  /** Texts that a host cannot mistake for an acknowledgement or a frame. */
  predicate PlainText(t: seq<byte>)
  {
    && t != [] && Printable(t) && FrameKind(t[0]).None?
    && t != ['z' as int] && t != ['Z' as int]
  }

  predicate ValidSent(u: Sent)
  {
    match u
    case Info(t) => PlainText(t)
    case Forward(f, ts) => OnBus(f) && (ts.Some? ==> ts.value < 60_000)
    case _ => true
  }

  predicate AllValid(us: seq<Sent>)
  {
    forall i :: 0 <= i < |us| ==> ValidSent(us[i])
  }

  function Render(u: Sent): seq<byte>
    requires ValidSent(u)
  {
    match u
    case Ack(_) => [CR]
    case Nak => [BELL]
    case Info(t) => t + [CR]
    case Confirm(ext) => [if ext then 'Z' as int else 'z' as int, CR]
    case Forward(f, ts) => FrameLine(f, ts)
  }

  /** The replies in bytes. */
  lemma ReplyBytes(t: seq<byte>)
    requires PlainText(t)
    ensures Render(Nak) == [7]
    ensures forall cause :: Render(Ack(cause)) == Ascii("\r")
    ensures Render(Confirm(false)) == Ascii("z\r") && Render(Confirm(true)) == Ascii("Z\r")
    ensures Render(Info(t)) == t + Ascii("\r")
  {
  }

  function RenderAll(us: seq<Sent>): seq<byte>
    requires AllValid(us)
  {
    if us == [] then [] else RenderAll(us[..|us| - 1]) + Render(us[|us| - 1])
  }

  /** What an outbound link carries before the port's own stream: `H`, the token and CR, if a token
      is configured. */
  function Greeting(token: Option<seq<byte>>): seq<byte>
  {
    match token
    case None => []
    case Some(t) => ['H' as int] + t + [CR]
  }

  /** How often a kind of unit occurs. */
  function Count(us: seq<Sent>, p: Sent -> bool): nat
  {
    if us == [] then 0 else Count(us[..|us| - 1], p) + (if p(us[|us| - 1]) then 1 else 0)
  }

  function Forwards(us: seq<Sent>): seq<CanFrame>
  {
    if us == [] then []
    else Forwards(us[..|us| - 1]) + (if us[|us| - 1].Forward? then [us[|us| - 1].f] else [])
  }

  /** The replies among the units. */
  function Replies(us: seq<Sent>): (rs: seq<Sent>)
    ensures forall i :: 0 <= i < |rs| ==> !rs[i].Forward?
  {
    if us == [] then []
    else Replies(us[..|us| - 1]) + (if us[|us| - 1].Forward? then [] else [us[|us| - 1]])
  }

  const IsNak: Sent -> bool := (u: Sent) => u.Nak?
  const IsConfirm: Sent -> bool := (u: Sent) => u.Confirm?
  const IsPositive: Sent -> bool := (u: Sent) => u.Ack? || u.Confirm?

  /** The channel state a host can infer from the stream: the last open or close acknowledged. */
  function OpenOf(us: seq<Sent>): bool
  {
    if us == [] then false
    else match us[|us| - 1]
      case Ack(DidOpen) => true
      case Ack(DidClose) => false
      case _ => OpenOf(us[..|us| - 1])
  }

  /** Likewise for the timestamp mode. */
  function StampOf(us: seq<Sent>): bool
  {
    if us == [] then false
    else match us[|us| - 1]
      case Ack(StampOn) => true
      case Ack(StampOff) => false
      case _ => StampOf(us[..|us| - 1])
  }

  lemma RenderSnoc(us: seq<Sent>, u: Sent)
    requires AllValid(us) && ValidSent(u)
    ensures AllValid(us + [u]) && RenderAll(us + [u]) == RenderAll(us) + Render(u)
  {
    assert (us + [u])[..|us|] == us;
  }

  lemma Snoc(us: seq<Sent>, u: Sent)
    ensures forall p: Sent -> bool :: Count(us + [u], p) == Count(us, p) + (if p(u) then 1 else 0)
    ensures Forwards(us + [u]) == Forwards(us) + (if u.Forward? then [u.f] else [])
    ensures Replies(us + [u]) == Replies(us) + (if u.Forward? then [] else [u])
    ensures OpenOf(us + [u]) == (if u == Ack(DidOpen) then true else if u == Ack(DidClose) then false else OpenOf(us))
    ensures StampOf(us + [u]) == (if u == Ack(StampOn) then true else if u == Ack(StampOff) then false else StampOf(us))
  {
    assert (us + [u])[..|us|] == us;
  }

  /** The flags a host infers depend on the replies alone. */
  lemma {:induction false} FlagsOfReplies(us: seq<Sent>)
    ensures OpenOf(Replies(us)) == OpenOf(us) && StampOf(Replies(us)) == StampOf(us)
    ensures Count(Replies(us), IsConfirm) == Count(us, IsConfirm)
  {
    hide OpenOf, StampOf, Count;
    if us != [] {
      var init, last := us[..|us| - 1], us[|us| - 1];
      FlagsOfReplies(init);
      assert us == init + [last];
      assert last.Forward? ==> Replies(us) == Replies(init);
      Snoc(init, last);
      Snoc(Replies(init), last);
      assert last.Forward? ==> !IsConfirm(last);
    }
  }
}
