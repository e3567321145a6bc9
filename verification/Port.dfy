/** One SLCAN port of src/transport.rs as a sequence of atomic moves: the session state between
    `await` points, and what every move keeps. */
module Port {
  import opened Bytes
  import opened Slcan
  import opened Can
  import opened Wire
  import opened LineAssembly
  import opened Protocol

  // ---- The session ----------------------------------------------------------------------------

  /** Where `run_port` is suspended: at the `select` or between bytes of a chunk, waiting for
      the manager's lock, writing to the link, or leaving the loop. */
  datatype Phase = Ready | Asking(c: Cmd) | Saying | Stopping

  /** `line`, `open`, `ts` and `chunk` are the task's variables and `out` is what its link has
      carried. The rest is history: the token sent before the loop, bytes taken, assembler events, units issued (the last one
      is still being written while `Saying`), and the fate of every broadcast frame. */
  datatype Session = Session(
    line: seq<byte>, open: bool, ts: bool, chunk: seq<byte>, phase: Phase, out: seq<byte>,
    token: Option<seq<byte>>, received: seq<byte>, events: seq<Event>, told: seq<Sent>,
    start: nat, cursor: nat, taken: seq<nat>, discarded: nat, overwritten: nat)

  function Fresh(at: nat): Session
  {
    Session([], false, false, [], Ready, [], None, [], [], [], at, at, [], 0, 0)
  }

  /** The link greets its peer before `run_port` starts. */
  function Greeted(s: Session, token: Option<seq<byte>>): Session
  {
    s.(token := token, out := Greeting(token))
  }

  /** The units whose bytes are on the link. */
  function Written(s: Session): seq<Sent>
    requires s.phase.Saying? ==> s.told != []
  {
    if s.phase.Saying? then s.told[..|s.told| - 1] else s.told
  }

  /** A frame is forwarded only while the stream says the channel is open, and carries a
      timestamp exactly while the stream says timestamps are on. */
  predicate Gated(us: seq<Sent>)
  {
    us == [] ||
    var init, last := us[..|us| - 1], us[|us| - 1];
    Gated(init) && (last.Forward? ==> OpenOf(init) && (last.ts.Some? <==> StampOf(init)))
  }

  predicate Increasing(s: seq<nat>)
  {
    forall i, j :: 0 <= i < j < |s| ==> s[i] < s[j]
  }

  function Pick(polled: seq<CanFrame>, at: seq<nat>): (r: seq<CanFrame>)
    requires forall i :: 0 <= i < |at| ==> at[i] < |polled|
    ensures |r| == |at|
  {
    seq(|at|, i requires 0 <= i < |at| => polled[at[i]])
  }

  predicate LineInv(s: Session)
  {
    Asm(s.line, s.events) == Assemble(s.received)
  }

  predicate StreamInv(s: Session)
  {
    AllValid(s.told) && (s.phase.Saying? ==> s.told != []) && s.out == Greeting(s.token) + RenderAll(Written(s))
  }

  predicate FlagInv(s: Session)
  {
    s.open == OpenOf(s.told) && s.ts == StampOf(s.told) && Gated(s.told)
  }

  /** While the port waits for the lock, its last event is the line whose command it holds. */
  predicate PhaseInv(s: Session)
  {
    s.phase.Asking? ==>
      && CmdFits(s.phase.c, s.open)
      && s.events != []
      && var e := s.events[|s.events| - 1];
         e.Command? && e.line != [] && PlanFor(e.line, s.open, s.ts) == Ask(s.phase.c)
  }

  /** `u` answers the event `e` after the replies `before`. */
  predicate AnswerTo(e: Event, before: seq<Sent>, u: Sent)
  {
    match e
    case Overflow => u == Nak
    case Command(line) => line != [] && Answers(line, OpenOf(before), u)
  }

  /** The replies answer the events position by position. */
  predicate AllAnswered(events: seq<Event>, rs: seq<Sent>)
  {
    |rs| <= |events| && forall n :: 0 <= n < |rs| ==> AnswerTo(events[n], rs[..n], rs[n])
  }

  /** Every line and every overflow is answered exactly once, in order of arrival. */
  predicate ReplyInv(s: Session)
  {
    && AllAnswered(s.events, Replies(s.told))
    && |Replies(s.told)| + (if s.phase.Asking? then 1 else 0) == |s.events|
  }

  /** What a dialogue says was done to the manager and the bus. */
  function Dialogue(events: seq<Event>, rs: seq<Sent>): seq<MgrEvent>
  {
    if rs == [] then []
    else
      var n := |rs| - 1;
      Dialogue(events, rs[..n]) + (if n < |events| then Told(events[n], OpenOf(rs[..n]), rs[n]) else [])
  }

  function DeedsOf(s: Session): seq<MgrEvent> { Dialogue(s.events, Replies(s.told)) }

  /** Forwarded frames are an order-preserving, duplicate-free selection of the frames polled
      since subscription, and every frame passed by the cursor is accounted for. */
  predicate QueueInv(s: Session, polled: seq<CanFrame>)
  {
    && s.start <= s.cursor <= |polled|
    && Increasing(s.taken)
    && (forall i :: 0 <= i < |s.taken| ==> s.start <= s.taken[i] < s.cursor)
    && Forwards(s.told) == Pick(polled, s.taken)
    && |s.taken| + s.discarded + s.overwritten == s.cursor - s.start
  }

  predicate SessionInv(s: Session, polled: seq<CanFrame>)
  {
    LineInv(s) && StreamInv(s) && FlagInv(s) && PhaseInv(s) && ReplyInv(s) && QueueInv(s, polled)
  }

  // ---- Moves ------------------------------------------------------------------------------------

  predicate AtSelect(s: Session) { s.phase.Ready? && s.chunk == [] }

  function OnChunk(s: Session, chunk: seq<byte>): Session
  {
    s.(chunk := chunk)
  }

  function Tell(s: Session, u: Sent): Session
  {
    s.(told := s.told + [u], phase := Saying)
  }

  /** The assembler takes the next byte of the chunk. */
  function Advance(s: Session): Session
    requires s.chunk != []
  {
    var b := s.chunk[0];
    var a := Take(Asm(s.line, s.events), b);
    s.(chunk := s.chunk[1..], received := s.received + [b], line := a.line, events := a.events)
  }

  /** One iteration of the byte loop, up to its first `await`. */
  function OnByte(s: Session): Session
    requires s.phase.Ready? && s.chunk != []
  {
    var s1 := Advance(s);
    if s.chunk[0] == CR && s.line != [] then
      match PlanFor(s.line, s.open, s.ts)
      case Say(u, ts) => Tell(s1.(ts := ts), u)
      case Ask(c) => s1.(phase := Asking(c))
    else if |s1.events| > |s.events| then Tell(s1, Nak)
    else s1
  }

  /** The lock region of a command. */
  function OnServe(s: Session, m: Manager, taken: bool, flags: byte): (Session, Manager)
    requires s.phase.Asking? && CmdFits(s.phase.c, s.open)
  {
    var r := Serve(s.phase.c, s.open, m, taken, flags);
    (Tell(s.(open := r.open), r.u), r.m)
  }

  /** The write completes. */
  function OnSay(s: Session): Session
    requires s.phase.Saying? && s.told != [] && AllValid(s.told)
  {
    s.(phase := Ready, out := s.out + Render(s.told[|s.told| - 1]))
  }

  const QUEUE: nat := 16

  /** The oldest frame the 16-slot broadcast queue still holds for a subscriber. */
  function Oldest(cursor: nat, published: nat): (k: nat)
    ensures cursor <= k && (cursor < published ==> k < published)
  {
    if published > QUEUE && cursor < published - QUEUE then published - QUEUE else cursor
  }

  /** The `select` returns a broadcast frame. */
  function OnFrame(s: Session, polled: seq<CanFrame>, now: nat): Session
    requires AtSelect(s) && s.cursor < |polled|
  {
    var k := Oldest(s.cursor, |polled|);
    var s1 := s.(cursor := k + 1, overwritten := s.overwritten + (k - s.cursor));
    if s.open then Tell(s1.(taken := s.taken + [k]), Forward(polled[k], if s.ts then Some(now) else None))
    else s1.(discarded := s.discarded + 1)
  }

  // ---- Every move keeps the session invariant -------------------------------------------------

  lemma AnswerSnoc(events: seq<Event>, rs: seq<Sent>, u: Sent)
    requires AllAnswered(events, rs) && |rs| < |events| && AnswerTo(events[|rs|], rs, u)
    ensures AllAnswered(events, rs + [u])
    ensures Dialogue(events, rs + [u]) == Dialogue(events, rs) + Told(events[|rs|], OpenOf(rs), u)
  {
    hide AnswerTo, Told;
    var all := rs + [u];
    forall n | 0 <= n < |all| ensures AnswerTo(events[n], all[..n], all[n]) {
      assert all[..n] == rs[..n];
    }
    assert all[..|rs|] == rs;
  }

  lemma {:induction false} MoreEvents(events: seq<Event>, e: Event, rs: seq<Sent>)
    requires |rs| <= |events|
    ensures AllAnswered(events, rs) ==> AllAnswered(events + [e], rs)
    ensures Dialogue(events + [e], rs) == Dialogue(events, rs)
  {
    hide AnswerTo, Told;
    if rs != [] {
      MoreEvents(events, e, rs[..|rs| - 1]);
    }
  }

  lemma FreshInv(at: nat, polled: seq<CanFrame>)
    requires at <= |polled|
    ensures SessionInv(Fresh(at), polled)
  {
    assert Pick(polled, []) == [];
  }

  lemma GreetedInv(at: nat, polled: seq<CanFrame>, token: Option<seq<byte>>)
    requires at <= |polled|
    ensures SessionInv(Greeted(Fresh(at), token), polled)
  {
    assert Pick(polled, []) == [];
    assert Greeting(token) + [] == Greeting(token);
  }

  /** Publishing a frame disturbs no session. */
  lemma PublishKeeps(s: Session, polled: seq<CanFrame>, f: CanFrame)
    requires SessionInv(s, polled)
    ensures SessionInv(s, polled + [f])
  {
    hide LineInv, StreamInv, FlagInv, PhaseInv, ReplyInv;
    assert Pick(polled + [f], s.taken) == Pick(polled, s.taken);
  }

  lemma TellStream(s: Session, u: Sent)
    requires StreamInv(s) && !s.phase.Saying? && ValidSent(u)
    ensures StreamInv(Tell(s, u))
  {
    hide ValidSent, Render, RenderAll;
    assert (s.told + [u])[..|s.told|] == s.told;
    RenderSnoc(s.told, u);
  }

  lemma TellReply(s: Session, u: Sent, open: bool, ts: bool)
    requires Gated(s.told) && ReplyFits(u, open, ts)
    requires u == Ack(DidOpen) || u == Ack(DidClose) || open == OpenOf(s.told)
    requires u == Ack(StampOn) || u == Ack(StampOff) || ts == StampOf(s.told)
    ensures FlagInv(Tell(s.(open := open, ts := ts), u))
    ensures Forwards(s.told + [u]) == Forwards(s.told)
    ensures Replies(s.told + [u]) == Replies(s.told) + [u]
  {
    hide ValidSent;
    Snoc(s.told, u);
    assert (s.told + [u])[..|s.told|] == s.told;
    assert Forwards(s.told) + [] == Forwards(s.told);
  }

  /** A reply that answers the last event keeps the dialogue in step. */
  lemma TellAnswer(s: Session, u: Sent)
    requires AllAnswered(s.events, Replies(s.told)) && |Replies(s.told)| + 1 == |s.events|
    requires !u.Forward? && AnswerTo(s.events[|s.events| - 1], s.told, u)
    ensures ReplyInv(Tell(s, u))
    ensures DeedsOf(Tell(s, u)) == DeedsOf(s) + Told(s.events[|s.events| - 1], OpenOf(s.told), u)
  {
    hide OpenOf, Replies, AllAnswered, Dialogue, Told, Answers;
    Snoc(s.told, u);
    FlagsOfReplies(s.told);
    AnswerSnoc(s.events, Replies(s.told), u);
  }

  lemma AdvanceLine(s: Session)
    requires LineInv(s) && s.chunk != []
    ensures LineInv(Advance(s))
    ensures Advance(s).events ==
            s.events + if s.chunk[0] == CR && s.line != [] then [Command(s.line)]
                       else if |Advance(s).events| > |s.events| then [Overflow] else []
  {
    TakeAllSnoc(NEW_ASM, s.received, s.chunk[0]);
  }

  lemma ByteKeeps(s: Session, polled: seq<CanFrame>)
    requires SessionInv(s, polled) && s.phase.Ready? && s.chunk != []
    ensures SessionInv(OnByte(s), polled) && DeedsOf(OnByte(s)) == DeedsOf(s)
  {
    hide SessionInv, OnByte, DeedsOf;
    if s.chunk[0] == CR && s.line != [] {
      CommandKeeps(s, polled);
    } else {
      PlainByteKeeps(s, polled);
    }
  }

  lemma CommandKeeps(s: Session, polled: seq<CanFrame>)
    requires SessionInv(s, polled) && s.phase.Ready? && s.chunk != [] && s.chunk[0] == CR && s.line != []
    ensures SessionInv(OnByte(s), polled) && DeedsOf(OnByte(s)) == DeedsOf(s)
  {
    hide ValidSent, Render, RenderAll, Gated, OpenOf, StampOf, Forwards, Replies, PlanFor, CmdFits, Assemble, Increasing, Take,
         ReplyFits, AllAnswered, Dialogue, Told, Answers, AllValid, Pick;
    AdvanceLine(s);
    var s1, rs := Advance(s), Replies(s.told);
    PlanFits(s.line, s.open, s.ts);
    MoreEvents(s.events, Command(s.line), rs);
    match PlanFor(s.line, s.open, s.ts)
    case Say(u, ts) =>
      ReplyIsValid(u, s.open, ts);
      TellStream(s1, u);
      TellReply(s1, u, s.open, ts);
      SayTold(s.line, s.open, s.ts);
      TellAnswer(s1.(ts := ts), u);
    case Ask(c) =>
  }

  lemma PlainByteKeeps(s: Session, polled: seq<CanFrame>)
    requires SessionInv(s, polled) && s.phase.Ready? && s.chunk != [] && !(s.chunk[0] == CR && s.line != [])
    ensures SessionInv(OnByte(s), polled) && DeedsOf(OnByte(s)) == DeedsOf(s)
  {
    hide ValidSent, Render, RenderAll, Gated, OpenOf, StampOf, Forwards, Replies, PlanFor, CmdFits, Assemble, Increasing, Take,
         ReplyFits, AllAnswered, Dialogue, Told, Answers, AllValid, Pick;
    AdvanceLine(s);
    var s1, rs := Advance(s), Replies(s.told);
    if |s1.events| > |s.events| {
      AcksFit(s.open, s.ts);
      TellStream(s1, Nak);
      TellReply(s1, Nak, s.open, s.ts);
      MoreEvents(s.events, Overflow, rs);
      OverflowTold(s.open);
      TellAnswer(s1, Nak);
    } else {
      assert s.events + [] == s.events;
    }
  }

  lemma ReplyIsValid(u: Sent, open: bool, ts: bool)
    requires ReplyFits(u, open, ts)
    ensures ValidSent(u) && !u.Forward?
  {
  }

  lemma ServeKeeps(s: Session, polled: seq<CanFrame>, m: Manager, taken: bool, flags: byte)
    requires SessionInv(s, polled) && s.phase.Asking?
    ensures SessionInv(OnServe(s, m, taken, flags).0, polled)
    ensures DeedsOf(OnServe(s, m, taken, flags).0) == DeedsOf(s) + Deed(s.phase.c, m, taken)
  {
    hide ValidSent, Render, RenderAll, Gated, OpenOf, StampOf, Forwards, Replies, Serve, Increasing, AllAnswered, Dialogue,
         Told, Answers, PlanFor, Deed;
    ServeFits(s.phase.c, s.open, s.ts, m, taken, flags);
    var r := Serve(s.phase.c, s.open, m, taken, flags);
    TellStream(s, r.u);
    TellReply(s, r.u, r.open, s.ts);
    ServeTold(s.events[|s.events| - 1].line, s.open, s.ts, m, taken, flags);
    TellAnswer(s.(open := r.open), r.u);
  }

  lemma ChunkKeeps(s: Session, polled: seq<CanFrame>, chunk: seq<byte>)
    requires SessionInv(s, polled)
    ensures SessionInv(OnChunk(s, chunk), polled)
  {
    hide Gated, OpenOf, StampOf, Replies, AllAnswered, Forwards, Increasing, RenderAll, AllValid;
  }

  lemma StopKeeps(s: Session, polled: seq<CanFrame>)
    requires SessionInv(s, polled) && AtSelect(s)
    ensures SessionInv(s.(phase := Stopping), polled)
  {
    hide Gated, OpenOf, StampOf, Replies, AllAnswered, Forwards, Increasing, RenderAll, AllValid;
  }

  lemma SayKeeps(s: Session, polled: seq<CanFrame>)
    requires SessionInv(s, polled) && s.phase.Saying?
    ensures SessionInv(OnSay(s), polled)
  {
    hide ValidSent, Render, Gated, OpenOf, StampOf, Replies, AllAnswered, Forwards, Increasing;
  }

  lemma TellForward(s: Session, u: Sent)
    requires FlagInv(s) && u.Forward? && s.open && (u.ts.Some? <==> s.ts)
    ensures FlagInv(Tell(s, u))
    ensures Forwards(s.told + [u]) == Forwards(s.told) + [u.f]
    ensures Replies(s.told + [u]) == Replies(s.told)
  {
    Snoc(s.told, u);
    assert Replies(s.told) + [] == Replies(s.told);
    assert (s.told + [u])[..|s.told|] == s.told;
  }

  lemma PickSnoc(polled: seq<CanFrame>, at: seq<nat>, k: nat)
    requires k < |polled| && forall i :: 0 <= i < |at| ==> at[i] < |polled|
    ensures Pick(polled, at + [k]) == Pick(polled, at) + [polled[k]]
  {
  }

  lemma FrameKeeps(s: Session, polled: seq<CanFrame>, now: nat)
    requires SessionInv(s, polled) && AtSelect(s) && s.cursor < |polled|
    requires now < 60_000 && forall i :: 0 <= i < |polled| ==> OnBus(polled[i])
    ensures SessionInv(OnFrame(s, polled, now), polled) && DeedsOf(OnFrame(s, polled, now)) == DeedsOf(s)
  {
    hide Render, RenderAll, OpenOf, StampOf, Replies, AllAnswered, Dialogue, Forwards, OnBus, Oldest, Gated, Pick, Assemble;
    var k := Oldest(s.cursor, |polled|);
    var s1 := s.(cursor := k + 1, overwritten := s.overwritten + (k - s.cursor));
    if s.open {
      var u := Forward(polled[k], if s.ts then Some(now) else None);
      TellStream(s1.(taken := s.taken + [k]), u);
      TellForward(s, u);
      PickSnoc(polled, s.taken, k);
    }
  }

  // ---- What the session invariant gives -------------------------------------------------------

  lemma {:induction false} GatedAt(us: seq<Sent>, k: nat)
    requires Gated(us) && k < |us| && us[k].Forward?
    ensures OpenOf(us[..k]) && (us[k].ts.Some? <==> StampOf(us[..k]))
  {
    hide OpenOf, StampOf;
    if k < |us| - 1 {
      GatedAt(us[..|us| - 1], k);
      assert us[..|us| - 1][..k] == us[..k];
    }
  }

  /** Frames still in the queue for this subscriber. */
  function Queued(s: Session, published: nat): nat
    requires s.cursor <= published
  {
    if published - s.cursor < QUEUE then published - s.cursor else QUEUE
  }

  /** Frames the queue has already lost for this subscriber. */
  function Lost(s: Session, published: nat): nat
    requires s.cursor <= published
  {
    s.overwritten + (published - s.cursor - Queued(s, published))
  }

  /** The broadcast queue as this subscriber sees it. */
  function QueueOf(s: Session, polled: seq<CanFrame>): (q: seq<CanFrame>)
    requires s.cursor <= |polled|
    ensures |q| == Queued(s, |polled|)
  {
    polled[Oldest(s.cursor, |polled|)..]
  }

  function Newest(q: seq<CanFrame>): seq<CanFrame>
  {
    if |q| <= QUEUE then q else q[|q| - QUEUE..]
  }

  /** The cursor model refines a 16-slot drop-oldest queue: publishing appends and drops the
      oldest frame of a full queue ... */
  lemma PublishIsEnqueue(s: Session, polled: seq<CanFrame>, f: CanFrame)
    requires s.cursor <= |polled|
    ensures QueueOf(s, polled + [f]) == Newest(QueueOf(s, polled) + [f])
  {
    var k := Oldest(s.cursor, |polled|);
    assert (polled + [f])[k..] == polled[k..] + [f];
  }

  /** ... and receiving takes the front. */
  lemma ReceiveIsDequeue(s: Session, polled: seq<CanFrame>, now: nat)
    requires AtSelect(s) && s.cursor < |polled|
    ensures var s', q := OnFrame(s, polled, now), QueueOf(s, polled);
            && q != [] && s'.cursor <= |polled| && QueueOf(s', polled) == q[1..]
            && s'.told == (if s.open then s.told + [Forward(q[0], if s.ts then Some(now) else None)] else s.told)
            && s'.overwritten == Lost(s, |polled|)
  {
  }

  /** The queue holds the last 16 frames at most, and all that are outstanding while there are no
      more than 16. */
  lemma QueueHolds(s: Session, polled: seq<CanFrame>)
    requires s.cursor <= |polled|
    ensures |polled| - s.cursor <= 16 ==> QueueOf(s, polled) == polled[s.cursor..] && Lost(s, |polled|) == s.overwritten
    ensures |polled| - s.cursor > 16 ==>
              QueueOf(s, polled) == polled[|polled| - 16..] && Lost(s, |polled|) == s.overwritten + (|polled| - 16 - s.cursor)
  {
  }

  /** forwarded + discarded while closed + overwritten + still queued = published since
      subscription. */
  lemma FramesAccountedFor(s: Session, polled: seq<CanFrame>)
    requires SessionInv(s, polled)
    ensures |Forwards(s.told)| + s.discarded + Lost(s, |polled|) + Queued(s, |polled|) == |polled| - s.start
  {
    hide Forwards, LineInv, StreamInv, FlagInv, PhaseInv, ReplyInv;
  }
}
