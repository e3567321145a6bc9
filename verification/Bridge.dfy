/** The whole bridge as a step system: any number of port tasks (src/main.rs, src/autoconnect.rs)
    running `run_port` against one shared manager and one broadcast queue. A step is one stretch
    of a task between two `await` points, or one frame polled from the controller; every
    interleaving of steps is a run. */
module Bridge {
  import opened Bytes
  import opened Slcan
  import opened Can
  import opened Wire
  import opened LineAssembly
  import opened Protocol
  import opened Port

  datatype Kind = Uart | TcpServer | AutoConnect

  /** A task's life: waiting for a link, TLS handshake, inside `run_port`, link going down,
      cooling down with the subscription still held, and (UART only) finished. */
  datatype Life = Idle | Handshake | Running | Closing | Cooling | Done

  /** `past` holds the task's earlier sessions as they were when their links went down. */
  datatype Task = Task(kind: Kind, life: Life, s: Session, past: seq<Session>)

  /** Which task did what to the manager or the bus. */
  datatype Entry = Entry(who: nat, what: MgrEvent)

  /** `log` is everything done to the manager and put on the bus, in order. */
  datatype Bridge = Bridge(
    mgr: Manager, polled: seq<CanFrame>, tasks: seq<Task>, log: seq<Entry>,
    tx: nat, refused: nat, serIn: nat, tcpIn: nat, serOut: nat, tcpOut: nat, clients: int)

  datatype Move =
    | Connect(tls: bool, token: Option<seq<byte>>)
    | Shake(ok: bool, token: Option<seq<byte>>)
    | Recv(chunk: seq<byte>)
    | Byte
    | Grant(taken: bool, flags: byte)
    | Write
    | Broadcast(now: nat)
    | Stop
    | Release
    | Leave
    | Rest

  datatype Action = OnTask(i: nat, move: Move) | Poll(e: EspFrame)

  /** A move's result: the task, the manager, and what the shared counters gain. */
  datatype Effect = Effect(
    t: Task, m: Manager, log: seq<MgrEvent>, tx: nat, arrived: nat, refused: nat, outs: nat, clients: int)

  predicate CanMove(t: Task, polled: seq<CanFrame>, mv: Move)
  {
    match mv
    case Connect(tls, token) =>
      t.life.Idle? && (tls || token.Some? ==> t.kind.AutoConnect?) && (tls ==> token.None?)
    case Shake(_, _) => t.life.Handshake?
    case Recv(chunk) => t.life.Running? && AtSelect(t.s) && 1 <= |chunk| <= 64
    case Byte => t.life.Running? && t.s.phase.Ready? && t.s.chunk != []
    case Grant(_, _) => t.life.Running? && t.s.phase.Asking? && CmdFits(t.s.phase.c, t.s.open)
    case Write => t.life.Running? && t.s.phase.Saying? && t.s.told != [] && AllValid(t.s.told)
    case Broadcast(now) => t.life.Running? && AtSelect(t.s) && t.s.cursor < |polled| && now < 60_000
    case Stop => t.life.Running? && AtSelect(t.s)
    case Release => t.life.Running? && t.s.phase.Stopping?
    case Leave => t.life.Closing?
    case Rest => t.life.Cooling?
  }

  /** A valid frame reaches the dispatcher with this byte. */
  predicate FrameArrives(s: Session)
    requires s.chunk != []
  {
    s.chunk[0] == CR && s.line != [] && IsTxCommand(s.line) && Parsed(s.line).Some?
  }

  function Quiet(t: Task, m: Manager): Effect
  {
    Effect(t, m, [], 0, 0, 0, 0, 0)
  }

  function Moved(t: Task, polled: seq<CanFrame>, m: Manager, mv: Move): Effect
    requires CanMove(t, polled, mv)
  {
    match mv
    case Connect(tls, token) =>
      Quiet(t.(life := if tls then Handshake else Running, s := Greeted(Fresh(|polled|), token)), m)
        .(clients := if t.kind.Uart? then 0 else 1)
    case Shake(ok, token) =>
      Quiet(t.(life := if ok then Running else Closing, s := if ok then Greeted(t.s, token) else Fresh(0)), m)
    case Recv(chunk) => Quiet(t.(s := OnChunk(t.s, chunk)), m)
    case Byte =>
      var s := OnByte(t.s);
      var arrived := if FrameArrives(t.s) then 1 else 0;
      Quiet(t.(s := s), m).(arrived := arrived, refused := if s.phase.Asking? then 0 else arrived)
    case Grant(taken, flags) =>
      var (s, m') := OnServe(t.s, m, taken, flags);
      var c := t.s.phase.c;
      Effect(t.(s := s), m', Deed(c, m, taken), if Sends(c, m, taken) then 1 else 0, 0,
             if c.Transmit? && !Sends(c, m, taken) then 1 else 0, 0, 0)
    case Write =>
      Quiet(t.(s := OnSay(t.s)), m).(outs := if t.s.told[|t.s.told| - 1].Forward? then 1 else 0)
    case Broadcast(now) => Quiet(t.(s := OnFrame(t.s, polled, now)), m)
    case Stop => Quiet(t.(s := t.s.(phase := Stopping)), m)
    case Release =>
      Quiet(t.(life := Closing, s := Fresh(0), past := t.past + [t.s]), if t.s.open then Released(m) else m).(log := if t.s.open then [Down] else [])
    case Leave =>
      Quiet(t.(life := if t.kind.Uart? then Done else Cooling), m).(clients := if t.kind.Uart? then 0 else -1)
    case Rest => Quiet(t.(life := Idle), m)
  }

  predicate Enabled(b: Bridge, a: Action)
  {
    match a
    case OnTask(i, mv) => i < |b.tasks| && CanMove(b.tasks[i], b.polled, mv)
    case Poll(e) => b.mgr.twai.Some? && ValidEsp(e)
  }

  function Apply(b: Bridge, a: Action): Bridge
    requires Enabled(b, a)
  {
    match a
    case OnTask(i, mv) => Commit(b, i, Moved(b.tasks[i], b.polled, b.mgr, mv))
    case Poll(e) => b.(polled := b.polled + [FromEsp(e)])
  }

  function By(i: nat, es: seq<MgrEvent>): (r: seq<Entry>)
    ensures |r| == |es|
  {
    seq(|es|, k requires 0 <= k < |es| => Entry(i, es[k]))
  }

  function Commit(b: Bridge, i: nat, e: Effect): Bridge
    requires i < |b.tasks|
  {
    var serial := b.tasks[i].kind.Uart?;
    b.(tasks := b.tasks[i := e.t], mgr := e.m, log := b.log + By(i, e.log),
       tx := b.tx + e.tx, refused := b.refused + e.refused,
       serIn := b.serIn + (if serial then e.arrived else 0),
       tcpIn := b.tcpIn + (if serial then 0 else e.arrived),
       serOut := b.serOut + (if serial then e.outs else 0),
       tcpOut := b.tcpOut + (if serial then 0 else e.outs),
       clients := b.clients + e.clients)
  }

  function Start(kinds: seq<Kind>): Bridge
  {
    Bridge(NEW_MANAGER, [], seq(|kinds|, i requires 0 <= i < |kinds| => Task(kinds[i], Idle, Fresh(0), [])),
           [], 0, 0, 0, 0, 0, 0, 0)
  }

  // ---- Totals over the tasks ------------------------------------------------------------------

  type Weight = Task -> nat

  function Sum(ts: seq<Task>, w: Weight): nat
  {
    if ts == [] then 0 else Sum(ts[..|ts| - 1], w) + w(ts[|ts| - 1])
  }

  const OpenPorts: Weight := (t: Task) => if t.s.open then 1 else 0
  const Confirms: Weight := (t: Task) => PastConfirms(t.past) + Count(t.s.told, IsConfirm)
  const InFlight: Weight := (t: Task) => if t.s.phase.Asking? && t.s.phase.c.Transmit? then 1 else 0
  const SerialIn: Weight := (t: Task) => if t.kind.Uart? then ArrivedBy(t) else 0
  const TcpIn: Weight := (t: Task) => if t.kind.Uart? then 0 else ArrivedBy(t)
  const SerialOut: Weight := (t: Task) => if t.kind.Uart? then ForwardedBy(t) else 0
  const TcpOut: Weight := (t: Task) => if t.kind.Uart? then 0 else ForwardedBy(t)
  const Clients: Weight := (t: Task) => if !t.kind.Uart? && Connected(t) then 1 else 0
  const Subscribers: Weight := (t: Task) => if Subscribed(t) then 1 else 0

  predicate Connected(t: Task) { t.life.Handshake? || t.life.Running? || t.life.Closing? }

  predicate Subscribed(t: Task) { Connected(t) || t.life.Cooling? }

  function PastConfirms(past: seq<Session>): nat
  {
    if past == [] then 0
    else PastConfirms(past[..|past| - 1]) + Count(past[|past| - 1].told, IsConfirm)
  }

  function PastForwards(past: seq<Session>): nat
  {
    if past == [] then 0
    else PastForwards(past[..|past| - 1]) + |Forwards(past[|past| - 1].told)|
  }

  function PastArrived(past: seq<Session>): nat
  {
    if past == [] then 0
    else PastArrived(past[..|past| - 1]) + FramesIn(past[|past| - 1].events)
  }

  /** Valid frames among the commands of all the task's sessions. */
  function ArrivedBy(t: Task): nat { PastArrived(t.past) + FramesIn(t.s.events) }

  /** Frames whose line is completely on the task's links. */
  function ForwardedBy(t: Task): nat
  {
    PastForwards(t.past) + |Forwards(t.s.told)| -
    (if t.s.phase.Saying? && t.s.told != [] && t.s.told[|t.s.told| - 1].Forward? then 1 else 0)
  }

  lemma {:induction false} SumUpdate(ts: seq<Task>, i: nat, t: Task, w: Weight)
    requires i < |ts|
    ensures Sum(ts[i := t], w) == Sum(ts, w) - w(ts[i]) + w(t)
  {
    var n := |ts| - 1;
    if i == n {
      assert ts[i := t][..n] == ts[..n];
    } else {
      SumUpdate(ts[..n], i, t, w);
      assert ts[i := t][..n] == ts[..n][i := t];
    }
  }

  /** One task's share is at most the total, and weights of at most 1 add up to at most the
      number of tasks. */
  lemma {:induction false} SumBounds(ts: seq<Task>, i: nat, w: Weight)
    requires i < |ts| && forall t :: w(t) <= 1
    ensures w(ts[i]) <= Sum(ts, w) <= |ts| - 1 + w(ts[i])
  {
    var n := |ts| - 1;
    if i < n {
      SumBounds(ts[..n], i, w);
    } else if n > 0 {
      SumBounds(ts[..n], 0, w);
    }
  }

  // ---- The manager as its log tells it --------------------------------------------------------

  function Depth(log: seq<Entry>): int
  {
    if log == [] then 0
    else Depth(log[..|log| - 1]) + Lift(log[|log| - 1].what)
  }

  function Lift(e: MgrEvent): int { if e.Up? then 1 else if e.Down? then -1 else 0 }

  /** The bitrate of the last `Sn` that was answered with CR, or the default. */
  function LastRate(log: seq<Entry>): BaudRate
  {
    if log == [] then B500K
    else if log[|log| - 1].what.Rate? then log[|log| - 1].what.baud
    else LastRate(log[..|log| - 1])
  }

  /** The mode of the last `O`/`L` that found the bus closed. */
  function EpochMode(log: seq<Entry>): bool
  {
    if log == [] then false
    else
      var init, last := log[..|log| - 1], log[|log| - 1].what;
      if last.Up? && Depth(init) == 0 then last.listenOnly else EpochMode(init)
  }

  predicate LogInv(m: Manager, log: seq<Entry>)
  {
    && m.openCount == Depth(log)
    && m.baud == LastRate(log)
    && m.twai == if Depth(log) == 0 then None else Some(Twai(LastRate(log), EpochMode(log)))
  }

  lemma LogSnoc(log: seq<Entry>, i: nat, e: MgrEvent)
    ensures Depth(log + [Entry(i, e)]) == Depth(log) + Lift(e)
    ensures LastRate(log + [Entry(i, e)]) == if e.Rate? then e.baud else LastRate(log)
    ensures EpochMode(log + [Entry(i, e)]) == if e.Up? && Depth(log) == 0 then e.listenOnly else EpochMode(log)
  {
    assert (log + [Entry(i, e)])[..|log|] == log;
  }

  /** The manager operations keep the log's account of it. */
  lemma LogKeeps(m: Manager, log: seq<Entry>, i: nat, e: MgrEvent)
    requires LogInv(m, log)
    requires e.Up? ==> m.openCount + 1 < U32
    requires e.Down? ==> m.openCount > 0
    requires e.Rate? ==> m.openCount == 0
    ensures LogInv(match e case Up(l) => Opened(m, l) case Down => Released(m) case Rate(r) => m.(baud := r) case Put(_) => m,
                   log + By(i, [e]))
  {
    hide Depth, LastRate, EpochMode;
    LogSnoc(log, i, e);
    assert By(i, [e]) == [Entry(i, e)];
  }

  // ---- Each task's part of the log ------------------------------------------------------------

  /** What task `i` did. */
  function Own(log: seq<Entry>, i: nat): seq<MgrEvent>
  {
    if log == [] then []
    else Own(log[..|log| - 1], i) + (if log[|log| - 1].who == i then [log[|log| - 1].what] else [])
  }

  /** The frames put on the bus. */
  function OnTheBus(log: seq<Entry>): seq<CanFrame>
  {
    if log == [] then []
    else OnTheBus(log[..|log| - 1]) + (if log[|log| - 1].what.Put? then [log[|log| - 1].what.f] else [])
  }

  /** What the dialogues of finished sessions say; a session that ends open gives the bus back. */
  function Closed(past: seq<Session>): seq<MgrEvent>
  {
    if past == [] then []
    else
      var last := past[|past| - 1];
      Closed(past[..|past| - 1]) + DeedsOf(last) + (if last.open then [Down] else [])
  }

  /** What all dialogues of a task say it did. */
  function History(t: Task): seq<MgrEvent> { Closed(t.past) + DeedsOf(t.s) }

  lemma OwnSnoc(log: seq<Entry>, i: nat, es: seq<MgrEvent>)
    requires |es| <= 1
    ensures forall j :: Own(log + By(i, es), j) == Own(log, j) + if j == i then es else []
    ensures |OnTheBus(log + By(i, es))| == |OnTheBus(log)| + if es != [] && es[0].Put? then 1 else 0
  {
    var all := log + By(i, es);
    if es == [] {
      assert all == log;
      assert forall j :: Own(log, j) + [] == Own(log, j);
    } else {
      assert all[..|log|] == log && all[|log|] == Entry(i, es[0]) && es == [es[0]];
    }
  }

  // ---- What one move does ---------------------------------------------------------------------

  /** Outside `run_port` the session is blank. */
  predicate LifeInv(t: Task)
  {
    && (!t.life.Running? ==> t.s == Fresh(t.s.start))
    && (t.life.Handshake? ==> t.kind.AutoConnect?)
    && (t.life.Cooling? ==> !t.kind.Uart?)
    && (t.s.token.Some? ==> t.kind.AutoConnect?)
  }

  /** In every finished session the commands were those of the bytes received, and answered. */
  predicate PastInv(past: seq<Session>)
  {
    forall n :: 0 <= n < |past| ==> LineInv(past[n]) && ReplyInv(past[n])
  }

  predicate TaskInv(t: Task, polled: seq<CanFrame>)
  {
    LifeInv(t) && SessionInv(t.s, polled) && PastInv(t.past)
  }

  /** The counters move with the task they belong to. */
  predicate Balanced(t: Task, e: Effect)
  {
    && e.t.kind == t.kind
    && e.tx == Confirms(e.t) - Confirms(t)
    && e.arrived == e.tx + e.refused + InFlight(e.t) - InFlight(t)
    && e.outs == ForwardedBy(e.t) - ForwardedBy(t)
    && e.clients == Clients(e.t) - Clients(t)
  }

  /** So do the frames that arrive. */
  predicate Received(t: Task, e: Effect)
  {
    e.t.kind == t.kind && e.arrived == ArrivedBy(e.t) - ArrivedBy(t)
  }

  /** The manager's count moves with the port's own flag, and the log says how. */
  predicate ManagerOk(t: Task, m: Manager, log: seq<Entry>, i: nat, e: Effect)
  {
    && e.m.openCount - m.openCount == OpenPorts(e.t) - OpenPorts(t)
    && LogInv(e.m, log + By(i, e.log))
  }

  /** What the move did is what the task's dialogues then say it did. */
  predicate Recorded(t: Task, e: Effect)
  {
    && |e.log| <= 1 && e.tx == (if e.log != [] && e.log[0].Put? then 1 else 0)
    && History(e.t) == History(t) + e.log
  }

  lemma LastTold(us: seq<Sent>, u: Sent)
    ensures (us + [u])[|us + [u]| - 1] == u
    ensures Count(us + [u], IsConfirm) == Count(us, IsConfirm) + (if u.Confirm? then 1 else 0)
    ensures |Forwards(us + [u])| == |Forwards(us)| + (if u.Forward? then 1 else 0)
  {
    Snoc(us, u);
    assert IsConfirm(u) <==> u.Confirm?;
  }

  lemma ByteBalanced(t: Task, polled: seq<CanFrame>, m: Manager)
    requires TaskInv(t, polled) && CanMove(t, polled, Byte)
    ensures Balanced(t, Moved(t, polled, m, Byte))
  {
    hide Count, Forwards, SessionInv, PastInv, PastConfirms, PastForwards, PlanFor, Take, Parsed, ValidSent;
    var s := t.s;
    if s.chunk[0] == CR && s.line != [] {
      PlanFits(s.line, s.open, s.ts);
      PlanCounts(s.line, s.open, s.ts);
      match PlanFor(s.line, s.open, s.ts)
      case Say(u, _) => LastTold(s.told, u);
      case Ask(_) =>
    } else {
      LastTold(s.told, Nak);
    }
  }

  /** A line asks to transmit exactly when it is a valid frame on an open port. */
  lemma PlanCounts(line: seq<byte>, open: bool, ts: bool)
    requires line != []
    ensures var p := PlanFor(line, open, ts);
            && (p.Ask? && p.c.Transmit? <==> IsTxCommand(line) && open && Parsed(line).Some?)
            && (p.Ask? && !p.c.Transmit? ==> !IsTxCommand(line))
  {
    hide Parsed;
  }

  lemma GrantBalanced(t: Task, polled: seq<CanFrame>, m: Manager, taken: bool, flags: byte)
    requires TaskInv(t, polled) && CanMove(t, polled, Grant(taken, flags))
    ensures Balanced(t, Moved(t, polled, m, Grant(taken, flags)))
  {
    hide Count, Forwards, SessionInv, ValidSent;
    ServeFits(t.s.phase.c, t.s.open, t.s.ts, m, taken, flags);
    SendsIffConfirmed(t.s.phase.c, t.s.open, m, taken, flags);
    LastTold(t.s.told, Serve(t.s.phase.c, t.s.open, m, taken, flags).u);
  }

  lemma BroadcastBalanced(t: Task, polled: seq<CanFrame>, m: Manager, now: nat)
    requires TaskInv(t, polled) && CanMove(t, polled, Broadcast(now))
    ensures Balanced(t, Moved(t, polled, m, Broadcast(now)))
  {
    hide Count, Forwards, SessionInv;
    var k := Oldest(t.s.cursor, |polled|);
    LastTold(t.s.told, Forward(polled[k], if t.s.ts then Some(now) else None));
  }

  lemma ReleaseBalanced(t: Task, polled: seq<CanFrame>, m: Manager)
    requires TaskInv(t, polled) && CanMove(t, polled, Release)
    ensures Balanced(t, Moved(t, polled, m, Release))
  {
    hide SessionInv, PastInv, PastConfirms, PastForwards, Count, Forwards, Released;
    PastSnoc(t.past, t.s);
    NoneTold();
  }

  lemma PastSnoc(past: seq<Session>, s: Session)
    ensures PastConfirms(past + [s]) == PastConfirms(past) + Count(s.told, IsConfirm)
    ensures PastForwards(past + [s]) == PastForwards(past) + |Forwards(s.told)|
  {
    assert (past + [s])[..|past|] == past;
  }

  lemma NoneTold()
    ensures Count([], IsConfirm) == 0 && Forwards([]) == []
  {
  }

  lemma LinkBalanced(t: Task, polled: seq<CanFrame>, m: Manager, mv: Move)
    requires TaskInv(t, polled) && CanMove(t, polled, mv)
    requires mv.Connect? || mv.Shake? || mv.Leave? || mv.Rest?
    ensures Balanced(t, Moved(t, polled, m, mv))
  {
    hide SessionInv, PastInv, PastConfirms, PastForwards, Count, Forwards;
    NoneTold();
  }

  lemma MoveBalanced(t: Task, polled: seq<CanFrame>, m: Manager, mv: Move)
    requires TaskInv(t, polled) && CanMove(t, polled, mv)
    ensures Balanced(t, Moved(t, polled, m, mv))
  {
    hide SessionInv, PastInv, PastConfirms, PastForwards, Count, Forwards, OnServe, OnByte, OnFrame, CmdFits, AllValid, Render,
         Fresh, Greeted;
    match mv
    case Byte => ByteBalanced(t, polled, m);
    case Grant(taken, flags) => GrantBalanced(t, polled, m, taken, flags);
    case Broadcast(now) => BroadcastBalanced(t, polled, m, now);
    case Release => ReleaseBalanced(t, polled, m);
    case Recv(_) =>
    case Write =>
    case Stop =>
    case _ => LinkBalanced(t, polled, m, mv);
  }

  lemma ByteArrives(s: Session)
    requires LineInv(s) && s.phase.Ready? && s.chunk != []
    ensures FramesIn(OnByte(s).events) == FramesIn(s.events) + if FrameArrives(s) then 1 else 0
  {
    hide Parsed, PlanFor, Assemble, Take, FramesIn;
    AdvanceLine(s);
    FramesSnoc(s.events, if s.chunk[0] == CR && s.line != [] then Command(s.line) else Overflow);
    assert s.events + [] == s.events;
  }

  lemma ReleaseArrives(past: seq<Session>, s: Session, at: nat)
    ensures PastArrived(past + [s]) == PastArrived(past) + FramesIn(s.events)
    ensures FramesIn(Fresh(at).events) == 0
  {
    assert (past + [s])[..|past|] == past;
  }

  lemma MoveReceived(t: Task, polled: seq<CanFrame>, m: Manager, mv: Move)
    requires TaskInv(t, polled) && CanMove(t, polled, mv)
    ensures Received(t, Moved(t, polled, m, mv))
  {
    hide SessionInv, PastInv, OnByte, FramesIn, PastArrived, FrameArrives, Serve, CmdFits, AllValid, Render, Oldest;
    ReleaseArrives(t.past, t.s, 0);
    if mv.Byte? {
      SessionIsTalk(t.s, polled);
      ByteArrives(t.s);
    }
  }

  lemma StartsWithin(s: Session, polled: seq<CanFrame>)
    requires SessionInv(s, polled)
    ensures s.start <= |polled|
  {
  }

  lemma SessionIsTalk(s: Session, polled: seq<CanFrame>)
    requires SessionInv(s, polled)
    ensures LineInv(s) && ReplyInv(s)
  {
  }

  lemma MoveKeepsToken(t: Task, polled: seq<CanFrame>, m: Manager, mv: Move)
    requires CanMove(t, polled, mv) && LifeInv(t)
    ensures var t' := Moved(t, polled, m, mv).t;
            t'.s.token.Some? ==> t'.kind.AutoConnect?
  {
    hide PlanFor, Take, Serve, Oldest;
  }

  lemma FreshDeeds(at: nat, token: Option<seq<byte>>)
    ensures DeedsOf(Fresh(at)) == [] && DeedsOf(Greeted(Fresh(at), token)) == []
  {
  }

  lemma ClosedSnoc(past: seq<Session>, s: Session)
    ensures Closed(past + [s]) == Closed(past) + DeedsOf(s) + if s.open then [Down] else []
  {
    assert (past + [s])[..|past|] == past;
  }

  /** Every move is recorded: the dialogues grow by exactly what the move did. */
  lemma MoveRecorded(t: Task, polled: seq<CanFrame>, m: Manager, mv: Move)
    requires TaskInv(t, polled) && CanMove(t, polled, mv)
    requires forall i :: 0 <= i < |polled| ==> OnBus(polled[i])
    ensures Recorded(t, Moved(t, polled, m, mv))
  {
    hide SessionInv, OnServe, OnByte, OnFrame, DeedsOf, Closed, AllValid, OnBus, PastConfirms, PastForwards, Sends;
    FreshDeeds(t.s.start, None);
    FreshDeeds(0, None);
    assert History(t) + [] == History(t);
    match mv
    case Connect(_, token) => FreshDeeds(|polled|, token);
    case Shake(_, token) => FreshDeeds(t.s.start, token);
    case Byte => ByteKeeps(t.s, polled);
    case Grant(taken, flags) => GrantRecorded(t, polled, m, taken, flags);
    case Broadcast(now) => FrameKeeps(t.s, polled, now);
    case Release => ClosedSnoc(t.past, t.s);
    case _ => SameDeeds(t.s, Moved(t, polled, m, mv).t.s);
  }

  lemma GrantRecorded(t: Task, polled: seq<CanFrame>, m: Manager, taken: bool, flags: byte)
    requires TaskInv(t, polled) && CanMove(t, polled, Grant(taken, flags))
    ensures Recorded(t, Moved(t, polled, m, Grant(taken, flags)))
  {
    hide SessionInv, OnServe, DeedsOf, Closed, IdInRange;
    ServeKeeps(t.s, polled, m, taken, flags);
    var deed := Deed(t.s.phase.c, m, taken);
    assert Closed(t.past) + (DeedsOf(t.s) + deed) == Closed(t.past) + DeedsOf(t.s) + deed;
  }

  lemma SameDeeds(s: Session, s': Session)
    requires s'.events == s.events && s'.told == s.told
    ensures DeedsOf(s') == DeedsOf(s)
  {
  }

  lemma MoveKeepsTask(t: Task, polled: seq<CanFrame>, m: Manager, mv: Move)
    requires TaskInv(t, polled) && CanMove(t, polled, mv)
    requires forall i :: 0 <= i < |polled| ==> OnBus(polled[i])
    ensures TaskInv(Moved(t, polled, m, mv).t, polled)
  {
    hide SessionInv, LineInv, ReplyInv, OnServe, OnByte, OnSay, OnFrame, AllValid, OnBus;
    MoveKeepsToken(t, polled, m, mv);
    match mv
    case Connect(_, token) => GreetedInv(|polled|, polled, token);
    case Shake(ok, token) =>
      if ok {
        StartsWithin(t.s, polled);
        GreetedInv(t.s.start, polled, token);
      } else {
        FreshInv(0, polled);
      }
    case Recv(chunk) => ChunkKeeps(t.s, polled, chunk);
    case Byte => ByteKeeps(t.s, polled);
    case Grant(taken, flags) => ServeKeeps(t.s, polled, m, taken, flags);
    case Write => SayKeeps(t.s, polled);
    case Broadcast(now) => FrameKeeps(t.s, polled, now);
    case Stop => StopKeeps(t.s, polled);
    case Release =>
      FreshInv(0, polled);
      SessionIsTalk(t.s, polled);
    case _ =>
  }

  lemma GrantManager(t: Task, polled: seq<CanFrame>, m: Manager, log: seq<Entry>, i: nat, taken: bool, flags: byte)
    requires CanMove(t, polled, Grant(taken, flags)) && LogInv(m, log)
    requires OpenPorts(t) <= m.openCount && m.openCount + 1 - OpenPorts(t) < U32
    ensures ManagerOk(t, m, log, i, Moved(t, polled, m, Grant(taken, flags)))
  {
    hide LogInv, ToEsp, BaudFromS, StatusText, IdInRange, Shaped, IdFits;
    assert log + By(i, []) == log;
    match t.s.phase.c
    case OpenBus(l) => LogKeeps(m, log, i, Up(l));
    case CloseBus => LogKeeps(m, log, i, Down);
    case SetRate(d) =>
      if RateAccepted(m, d) {
        LogKeeps(m, log, i, Rate(BaudFromS(d).value));
      }
    case Transmit(f) => LogKeeps(m, log, i, Put(f));
    case Status =>
  }

  lemma MoveManager(t: Task, polled: seq<CanFrame>, m: Manager, log: seq<Entry>, i: nat, mv: Move)
    requires TaskInv(t, polled) && CanMove(t, polled, mv) && LogInv(m, log)
    requires OpenPorts(t) <= m.openCount && m.openCount + 1 - OpenPorts(t) < U32
    ensures ManagerOk(t, m, log, i, Moved(t, polled, m, mv))
  {
    hide SessionInv, LogInv, PlanFor, Take, Count, Forwards;
    assert log + By(i, []) == log;
    match mv
    case Grant(taken, flags) => GrantManager(t, polled, m, log, i, taken, flags);
    case Release =>
      if t.s.open {
        LogKeeps(m, log, i, Down);
      }
    case Byte => ByteKeepsFlag(t.s);
    case _ =>
  }

  lemma ByteKeepsFlag(s: Session)
    requires s.phase.Ready? && s.chunk != []
    ensures OnByte(s).open == s.open
  {
    hide PlanFor, Take;
  }

  // ---- The invariant of every reachable state -------------------------------------------------

  predicate Inv(b: Bridge)
  {
    && |b.tasks| < U32
    && (forall i :: 0 <= i < |b.polled| ==> OnBus(b.polled[i]))
    && (forall i :: 0 <= i < |b.tasks| ==> TaskInv(b.tasks[i], b.polled))
    && LogInv(b.mgr, b.log)
    && Attributed(b)
    && b.mgr.openCount == Sum(b.tasks, OpenPorts)
    && Totals(b)
  }

  /** Each task's part of the log is what its dialogues say. */
  predicate Attributed(b: Bridge)
  {
    forall i :: 0 <= i < |b.tasks| ==> Own(b.log, i) == History(b.tasks[i])
  }

  predicate Totals(b: Bridge)
  {
    && b.tx == Sum(b.tasks, Confirms) == |OnTheBus(b.log)|
    && b.serIn + b.tcpIn == b.tx + b.refused + Sum(b.tasks, InFlight)
    && b.serIn == Sum(b.tasks, SerialIn)
    && b.tcpIn == Sum(b.tasks, TcpIn)
    && b.serOut == Sum(b.tasks, SerialOut)
    && b.tcpOut == Sum(b.tasks, TcpOut)
    && b.clients == Sum(b.tasks, Clients)
  }

  lemma {:induction false} SumBlank(ts: seq<Task>, w: Weight)
    requires forall i :: 0 <= i < |ts| ==> w(ts[i]) == 0
    ensures Sum(ts, w) == 0
  {
    if ts != [] {
      SumBlank(ts[..|ts| - 1], w);
    }
  }

  lemma BlankWeights(t: Task)
    requires t.s == Fresh(0) && t.past == [] && t.life.Idle?
    ensures OpenPorts(t) == Confirms(t) == InFlight(t) == Clients(t) == 0
    ensures SerialIn(t) == TcpIn(t) == SerialOut(t) == TcpOut(t) == 0
    ensures History(t) == []
  {
  }

  lemma StartInv(kinds: seq<Kind>)
    requires |kinds| < U32
    ensures Inv(Start(kinds))
  {
    hide Sum, History, SessionInv, ArrivedBy, ForwardedBy, Connected, Count, PastConfirms;
    var ts := Start(kinds).tasks;
    FreshInv(0, []);
    forall i | 0 <= i < |ts| ensures ts[i].s == Fresh(0) && ts[i].past == [] && ts[i].life.Idle? {
    }
    forall t | t in ts
      ensures OpenPorts(t) == Confirms(t) == InFlight(t) == Clients(t) == 0
      ensures SerialIn(t) == TcpIn(t) == SerialOut(t) == TcpOut(t) == 0
      ensures History(t) == []
    {
      BlankWeights(t);
    }
    SumBlank(ts, OpenPorts);
    SumBlank(ts, Confirms);
    SumBlank(ts, InFlight);
    SumBlank(ts, SerialIn);
    SumBlank(ts, TcpIn);
    SumBlank(ts, SerialOut);
    SumBlank(ts, TcpOut);
    SumBlank(ts, Clients);
  }

  lemma CommitRecorded(b: Bridge, i: nat, e: Effect)
    requires Attributed(b) && i < |b.tasks| && Recorded(b.tasks[i], e)
    ensures Attributed(Commit(b, i, e))
  {
    hide Own, History, OnTheBus, By;
    OwnSnoc(b.log, i, e.log);
    forall j | 0 <= j < |b.tasks| ensures Own(b.log + By(i, e.log), j) == History(b.tasks[i := e.t][j]) {
      assert Own(b.log, j) + [] == Own(b.log, j);
    }
  }

  lemma CommitTotals(b: Bridge, i: nat, e: Effect)
    requires Totals(b) && i < |b.tasks| && Balanced(b.tasks[i], e) && Recorded(b.tasks[i], e) && Received(b.tasks[i], e)
    ensures Totals(Commit(b, i, e))
  {
    hide Sum, ForwardedBy, ArrivedBy, Connected, Count, Forwards, Own, History, OnTheBus, By;
    OwnSnoc(b.log, i, e.log);
    SumUpdate(b.tasks, i, e.t, Confirms);
    SumUpdate(b.tasks, i, e.t, InFlight);
    SumUpdate(b.tasks, i, e.t, SerialIn);
    SumUpdate(b.tasks, i, e.t, TcpIn);
    SumUpdate(b.tasks, i, e.t, SerialOut);
    SumUpdate(b.tasks, i, e.t, TcpOut);
    SumUpdate(b.tasks, i, e.t, Clients);
  }

  lemma TaskStepKeeps(b: Bridge, i: nat, mv: Move)
    requires Inv(b) && Enabled(b, OnTask(i, mv))
    ensures Inv(Apply(b, OnTask(i, mv)))
  {
    hide Sum, TaskInv, LogInv, Balanced, Recorded, Received, Attributed, Totals, Moved, CanMove, OnBus, By;
    var t, e := b.tasks[i], Moved(b.tasks[i], b.polled, b.mgr, mv);
    SumBounds(b.tasks, i, OpenPorts);
    MoveBalanced(t, b.polled, b.mgr, mv);
    MoveKeepsTask(t, b.polled, b.mgr, mv);
    MoveRecorded(t, b.polled, b.mgr, mv);
    MoveReceived(t, b.polled, b.mgr, mv);
    MoveManager(t, b.polled, b.mgr, b.log, i, mv);
    CommitRecorded(b, i, e);
    SumUpdate(b.tasks, i, e.t, OpenPorts);
    CommitTotals(b, i, e);
  }

  lemma StepKeeps(b: Bridge, a: Action)
    requires Inv(b) && Enabled(b, a)
    ensures Inv(Apply(b, a))
  {
    match a
    case OnTask(i, mv) => TaskStepKeeps(b, i, mv);
    case Poll(e) =>
      ReceivedIsOnBus(e);
      PublishKeepsAll(b, FromEsp(e));
  }

  lemma PublishKeepsAll(b: Bridge, f: CanFrame)
    requires Inv(b) && OnBus(f)
    ensures Inv(b.(polled := b.polled + [f]))
  {
    hide SessionInv, LifeInv, PastInv, LogInv, Sum, OnBus, Own, History, OnTheBus;
    forall i | 0 <= i < |b.tasks| ensures TaskInv(b.tasks[i], b.polled + [f]) {
      PublishKeeps(b.tasks[i].s, b.polled, f);
    }
  }
}
