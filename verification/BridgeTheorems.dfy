/** What holds in every state of every run of the bridge, stated without its invariant. */
module BridgeTheorems {
  import opened Bytes
  import opened Slcan
  import opened Can
  import opened Wire
  import opened LineAssembly
  import opened Protocol
  import opened Port
  import opened Bridge
  import HostTool

  /** A run: states linked by enabled actions, from a bridge with the given tasks. */
  predicate IsRun(kinds: seq<Kind>, bs: seq<Bridge>, acts: seq<Action>)
  {
    && |kinds| < U32
    && |bs| == |acts| + 1
    && bs[0] == Start(kinds)
    && forall k :: 0 <= k < |acts| ==> Enabled(bs[k], acts[k]) && bs[k + 1] == Apply(bs[k], acts[k])
  }

  lemma {:induction false} RunInv(kinds: seq<Kind>, bs: seq<Bridge>, acts: seq<Action>, k: nat)
    requires IsRun(kinds, bs, acts) && k < |bs|
    ensures Inv(bs[k]) && |bs[k].tasks| == |kinds|
    ensures forall i :: 0 <= i < |kinds| ==> bs[k].tasks[i].kind == kinds[i]
  {
    hide Inv, Enabled, Apply;
    if k == 0 {
      StartInv(kinds);
    } else {
      RunInv(kinds, bs, acts, k - 1);
      StepKeeps(bs[k - 1], acts[k - 1]);
      KindsKept(bs[k - 1], acts[k - 1]);
    }
  }

  lemma KindsKept(b: Bridge, a: Action)
    requires Inv(b) && Enabled(b, a)
    ensures |Apply(b, a).tasks| == |b.tasks|
    ensures forall i :: 0 <= i < |b.tasks| ==> Apply(b, a).tasks[i].kind == b.tasks[i].kind
  {
    hide TaskInv, LogInv, Attributed, Totals, Sum, Moved, OnBus, CanMove;
    match a
    case OnTask(i, mv) => MoveBalanced(b.tasks[i], b.polled, b.mgr, mv);
    case Poll(_) =>
  }

  /** The guards of the step system exclude nothing: at the `select` a task can take any chunk the
      64-byte buffer holds, a broadcast frame exactly if one is queued, and the end of its link, and
      wherever else it is suspended inside `run_port` its next move is possible. */
  lemma NeverStuck(kinds: seq<Kind>, bs: seq<Bridge>, acts: seq<Action>, k: nat, i: nat)
    requires IsRun(kinds, bs, acts) && k < |bs| && i < |kinds|
    ensures i < |bs[k].tasks| && bs[k].tasks[i].s.cursor <= |bs[k].polled|
    ensures bs[k].tasks[i].life.Running? ==>
              var b, s := bs[k], bs[k].tasks[i].s;
              match s.phase
              case Ready =>
                if s.chunk != [] then Enabled(b, OnTask(i, Byte))
                else forall mv :: Enabled(b, OnTask(i, mv)) <==>
                       || mv.Stop?
                       || (mv.Recv? && 1 <= |mv.chunk| <= 64)
                       || (mv.Broadcast? && mv.now < 60_000 && QueueOf(s, b.polled) != [])
              case Asking(_) => forall taken, flags :: Enabled(b, OnTask(i, Grant(taken, flags)))
              case Saying => Enabled(b, OnTask(i, Write))
              case Stopping => Enabled(b, OnTask(i, Release))
  {
    hide IsRun, LineInv, FlagInv, ReplyInv, RenderAll, CmdFits, PlanFor, Forwards, Pick, Increasing;
    SessionOf(kinds, bs, acts, k, i);
  }

  // ---- Reference counting -----------------------------------------------------------------------

  /** The ports whose own `open` flag is set. */
  function OpenSet(ts: seq<Task>): set<nat>
  {
    set i: nat | i < |ts| && ts[i].s.open
  }

  lemma {:induction false} SumIsOpenSet(ts: seq<Task>)
    ensures Sum(ts, OpenPorts) == |OpenSet(ts)|
  {
    if ts != [] {
      var n := |ts| - 1;
      SumIsOpenSet(ts[..n]);
      assert OpenSet(ts) == OpenSet(ts[..n]) + (if ts[n].s.open then {n} else {});
    }
  }

  /** In every reachable state the count is the number of open ports, it cannot wrap, and the
      controller is on exactly while some port is open. */
  lemma CountIsOpenPorts(kinds: seq<Kind>, bs: seq<Bridge>, acts: seq<Action>, k: nat)
    requires IsRun(kinds, bs, acts) && k < |bs|
    ensures bs[k].mgr.openCount == |OpenSet(bs[k].tasks)| <= |kinds|
    ensures bs[k].mgr.twai.Some? <==> OpenSet(bs[k].tasks) != {}
  {
    hide TaskInv, Attributed, Totals, OnBus, IsRun;
    RunInv(kinds, bs, acts, k);
    SumIsOpenSet(bs[k].tasks);
    SumAtMost(bs[k].tasks, OpenPorts);
  }

  lemma {:induction false} SumAtMost(ts: seq<Task>, w: Weight)
    requires forall t :: w(t) <= 1
    ensures Sum(ts, w) <= |ts|
  {
    if ts != [] {
      SumAtMost(ts[..|ts| - 1], w);
    }
  }

  /** No step of one task, be it repeated `O`, `L`, `C` or the loss of its link, changes another
      port or takes the bus away from a port that has it open. */
  lemma OthersKeepTheBus(kinds: seq<Kind>, bs: seq<Bridge>, acts: seq<Action>, k: nat, j: nat)
    requires IsRun(kinds, bs, acts) && k < |acts| && j < |kinds|
    requires acts[k].OnTask? ==> acts[k].i != j
    ensures j < |bs[k].tasks| && j < |bs[k + 1].tasks| && bs[k + 1].tasks[j] == bs[k].tasks[j]
    ensures bs[k].tasks[j].s.open ==> bs[k].mgr.twai.Some? && bs[k + 1].mgr.twai == bs[k].mgr.twai
  {
    hide Inv, Moved, CanMove;
    RunInv(kinds, bs, acts, k);
    RunInv(kinds, bs, acts, k + 1);
    CountIsOpenPorts(kinds, bs, acts, k);
    CountIsOpenPorts(kinds, bs, acts, k + 1);
    if bs[k].tasks[j].s.open {
      assert j in OpenSet(bs[k].tasks) && j in OpenSet(bs[k + 1].tasks);
      EpochStep(bs[k], acts[k]);
    }
  }

  /** A frame is handed to the manager only by an open port, so "no controller" never happens. */
  lemma TransmitHasController(kinds: seq<Kind>, bs: seq<Bridge>, acts: seq<Action>, k: nat, i: nat)
    requires IsRun(kinds, bs, acts) && k < |bs| && i < |bs[k].tasks|
    requires bs[k].tasks[i].s.phase.Asking? && bs[k].tasks[i].s.phase.c.Transmit?
    ensures bs[k].tasks[i].s.open && bs[k].mgr.twai.Some?
  {
    hide LineInv, StreamInv, FlagInv, ReplyInv, QueueInv, PastInv, OnBus, Attributed, Totals, LogInv, Sum, IsRun, PlanFor;
    RunInv(kinds, bs, acts, k);
    CountIsOpenPorts(kinds, bs, acts, k);
    assert i in OpenSet(bs[k].tasks);
  }

  // ---- Bitrate and mode ---------------------------------------------------------------------------

  /** Whenever the controller is on, its bitrate is that of the last accepted `Sn` and its mode
      that of the `O`/`L` that found the bus closed. */
  lemma ControllerFollowsLog(kinds: seq<Kind>, bs: seq<Bridge>, acts: seq<Action>, k: nat)
    requires IsRun(kinds, bs, acts) && k < |bs| && bs[k].mgr.twai.Some?
    ensures bs[k].mgr.twai.value == Twai(LastRate(bs[k].log), EpochMode(bs[k].log))
  {
    hide TaskInv, Attributed, Totals, OnBus, IsRun, LastRate, EpochMode, Depth, Sum;
    RunInv(kinds, bs, acts, k);
  }

  lemma GrantStep(b: Bridge, i: nat, taken: bool, flags: byte)
    requires Enabled(b, OnTask(i, Grant(taken, flags)))
    ensures var b', s := Apply(b, OnTask(i, Grant(taken, flags))), b.tasks[i].s;
            var r := Serve(s.phase.c, s.open, b.mgr, taken, flags);
            && b'.tasks[i].s.told == s.told + [r.u] && b'.tasks[i].s.open == r.open && b'.mgr == r.m
            && b'.tasks == b.tasks[i := b'.tasks[i]]
            && b'.log == b.log + By(i, Deed(s.phase.c, b.mgr, taken))
  {
    hide Serve, Deed, By, Sends;
  }

  lemma EpochStep(b: Bridge, a: Action)
    requires Inv(b) && Enabled(b, a)
    ensures b.mgr.twai.Some? && Apply(b, a).mgr.twai.Some? ==> Apply(b, a).mgr.twai == b.mgr.twai
  {
    hide TaskInv, Attributed, Totals, OnBus, Sum, OnByte, OnSay, OnFrame, LastRate, EpochMode, Depth;
  }

  /** Neither bitrate nor mode changes while the controller stays on. */
  lemma {:induction false} EpochFixed(kinds: seq<Kind>, bs: seq<Bridge>, acts: seq<Action>, j: nat, k: nat)
    requires IsRun(kinds, bs, acts) && j <= k < |bs|
    requires forall i :: j <= i <= k ==> bs[i].mgr.twai.Some?
    ensures bs[k].mgr.twai == bs[j].mgr.twai
  {
    hide Inv, Enabled, Apply;
    if j < k {
      EpochFixed(kinds, bs, acts, j, k - 1);
      RunInv(kinds, bs, acts, k - 1);
      EpochStep(bs[k - 1], acts[k - 1]);
    }
  }

  // ---- The port's stream and its host -----------------------------------------------------------

  lemma SessionOf(kinds: seq<Kind>, bs: seq<Bridge>, acts: seq<Action>, k: nat, i: nat)
    requires IsRun(kinds, bs, acts) && k < |bs| && i < |kinds|
    ensures i < |bs[k].tasks| && SessionInv(bs[k].tasks[i].s, bs[k].polled) && PastInv(bs[k].tasks[i].past)
    ensures kinds[i] != AutoConnect ==> bs[k].tasks[i].s.token.None?
  {
    hide IsRun, SessionInv, PastInv, LogInv, Attributed, Totals, OnBus, Sum;
    RunInv(kinds, bs, acts, k);
  }

  /** For every run and every port: the bytes on its link, fed to the host's reader, give back
      exactly the replies and frames the port has written, frames in the order polled, on top of
      what the reader makes of the greeting; only an auto-connect link has one, and it goes
      unnoticed exactly if it is silent. */
  lemma HostSeesPort(kinds: seq<Kind>, bs: seq<Bridge>, acts: seq<Action>, k: nat, i: nat)
    requires IsRun(kinds, bs, acts) && k < |bs| && i < |kinds|
    ensures i < |bs[k].tasks| && (bs[k].tasks[i].s.phase.Saying? ==> bs[k].tasks[i].s.told != [])
    ensures var s := bs[k].tasks[i].s;
            var w, h := Written(s), HostTool.Feed(HostTool.NEW_HOST, Greeting(s.token));
            && (forall n :: 0 <= n < |Forwards(w)| ==> Shaped(Forwards(w)[n]))
            && HostTool.Feed(HostTool.NEW_HOST, s.out)
               == HostTool.Host([], h.ack + Count(w, IsPositive), h.nak + Count(w, IsNak), h.rx + |Forwards(w)|,
                                h.shown + HostTool.Views(Forwards(w)))
            && (h == HostTool.NEW_HOST <==> HostTool.Silent(Greeting(s.token)))
            && (kinds[i] != AutoConnect ==> h == HostTool.NEW_HOST)
  {
    hide IsRun, Count, Forwards, RenderAll, HostTool.Feed, LineInv, FlagInv, ReplyInv, QueueInv, PhaseInv, ValidSent,
         HostTool.Silent, HostTool.Views;
    SessionOf(kinds, bs, acts, k, i);
    var s := bs[k].tasks[i].s;
    HostTool.GreetingHeard(s.token);
    HostTool.FeedConcat(HostTool.NEW_HOST, Greeting(s.token), RenderAll(Written(s)));
    HostTool.HostRecovers(HostTool.Feed(HostTool.NEW_HOST, Greeting(s.token)), Written(s));
  }

  /** Forwarded frames: an order-preserving, duplicate-free selection of the frames polled from
      the bus since the port subscribed; with those discarded while closed, those overwritten in
      the 16-slot queue and those still queued they make up everything published since. */
  lemma DeliveryIsOrdered(kinds: seq<Kind>, bs: seq<Bridge>, acts: seq<Action>, k: nat, i: nat)
    requires IsRun(kinds, bs, acts) && k < |bs| && i < |kinds|
    ensures i < |bs[k].tasks|
    ensures var s, polled := bs[k].tasks[i].s, bs[k].polled;
            && s.start <= s.cursor <= |polled|
            && Increasing(s.taken)
            && (forall n :: 0 <= n < |s.taken| ==> s.start <= s.taken[n] < |polled|)
            && Forwards(s.told) == Pick(polled, s.taken)
            && |Forwards(s.told)| + s.discarded + Lost(s, |polled|) + Queued(s, |polled|) == |polled| - s.start
  {
    hide IsRun, Forwards, LineInv, StreamInv, FlagInv, ReplyInv, PhaseInv;
    SessionOf(kinds, bs, acts, k, i);
    FramesAccountedFor(bs[k].tasks[i].s, bs[k].polled);
  }

  /** No frame stands in the stream between the answer to a `C` and the answer to the next
      `O`/`L`, nor before the first; timestamps follow `Z0`/`Z1` in the same way. */
  lemma NoFrameWhileClosed(kinds: seq<Kind>, bs: seq<Bridge>, acts: seq<Action>, k: nat, i: nat, n: nat)
    requires IsRun(kinds, bs, acts) && k < |bs| && i < |kinds|
    ensures i < |bs[k].tasks|
    ensures var told := bs[k].tasks[i].s.told;
            n < |told| && told[n].Forward? ==>
              OpenOf(told[..n]) && (told[n].ts.Some? <==> StampOf(told[..n]))
  {
    hide IsRun, LineInv, StreamInv, ReplyInv, PhaseInv, QueueInv, OpenOf, StampOf, Gated;
    SessionOf(kinds, bs, acts, k, i);
    var told := bs[k].tasks[i].s.told;
    if n < |told| && told[n].Forward? {
      GatedAt(told, n);
    }
  }

  /** The commands a port acts on depend only on the bytes it received, not on how they were
      split into reads or interleaved with anything else. Its replies answer them position by
      position as the protocol table says, given the channel state its own stream shows; at most
      the last one is still unanswered. */
  lemma CommandsFollowBytes(kinds: seq<Kind>, bs: seq<Bridge>, acts: seq<Action>, k: nat, i: nat)
    requires IsRun(kinds, bs, acts) && k < |bs| && i < |kinds|
    ensures i < |bs[k].tasks|
    ensures var s := bs[k].tasks[i].s;
            var rs := Replies(s.told);
            && s.events == Assemble(s.received).events
            && |rs| + (if s.phase.Asking? then 1 else 0) == |s.events|
            && forall n :: 0 <= n < |rs| ==> AnswerTo(s.events[n], rs[..n], rs[n])
  {
    hide IsRun, StreamInv, FlagInv, QueueInv, PhaseInv, Replies, Assemble, AnswerTo;
    SessionOf(kinds, bs, acts, k, i);
  }

  // ---- The manager's history as the ports' dialogues tell it ---------------------------------------

  /** Everything a task has done to the manager and the bus is what its hosts can read off their
      dialogues, in that order: references taken and given back, bitrates set, frames sent. */
  lemma PortHistory(kinds: seq<Kind>, bs: seq<Bridge>, acts: seq<Action>, k: nat, i: nat)
    requires IsRun(kinds, bs, acts) && k < |bs| && i < |kinds|
    ensures i < |bs[k].tasks| && Own(bs[k].log, i) == History(bs[k].tasks[i])
  {
    hide IsRun, TaskInv, LogInv, Totals, OnBus, Sum, Own, History;
    RunInv(kinds, bs, acts, k);
  }

  function Frames(es: seq<MgrEvent>): seq<CanFrame>
  {
    if es == [] then []
    else Frames(es[..|es| - 1]) + (if es[|es| - 1].Put? then [es[|es| - 1].f] else [])
  }

  function Rates(es: seq<MgrEvent>): seq<BaudRate>
  {
    if es == [] then []
    else Rates(es[..|es| - 1]) + (if es[|es| - 1].Rate? then [es[|es| - 1].baud] else [])
  }

  lemma {:induction false} KeptConcat(a: seq<MgrEvent>, b: seq<MgrEvent>)
    ensures Frames(a + b) == Frames(a) + Frames(b) && Rates(a + b) == Rates(a) + Rates(b)
  {
    if b == [] {
      assert a + b == a;
    } else {
      KeptConcat(a, b[..|b| - 1]);
      assert (a + b)[..|a + b| - 1] == a + b[..|b| - 1];
    }
  }

  lemma NoneKept()
    ensures Frames([]) == [] && Rates([]) == []
  {
  }

  /** The frames of the lines that were confirmed, in order. */
  function ConfirmedFrames(events: seq<Event>, rs: seq<Sent>): seq<CanFrame>
    requires AllAnswered(events, rs)
  {
    if rs == [] then []
    else
      var n := |rs| - 1;
      InitAnswered(events, rs);
      ConfirmedFrames(events, rs[..n]) + (if rs[n].Confirm? then [Parsed(events[n].line).value] else [])
  }

  /** The bitrates of the `Sn` lines that were answered with CR, in order. */
  function AnsweredRates(events: seq<Event>, rs: seq<Sent>): seq<BaudRate>
    requires AllAnswered(events, rs)
  {
    if rs == [] then []
    else
      var n := |rs| - 1;
      InitAnswered(events, rs);
      AnsweredRates(events, rs[..n]) +
      (if rs[n] == Ack(Plain) && events[n].line[0] == 'S' as int then [BaudFromS(events[n].line[1]).value] else [])
  }

  lemma InitAnswered(events: seq<Event>, rs: seq<Sent>)
    requires rs != [] && AllAnswered(events, rs)
    ensures var n := |rs| - 1;
            && AllAnswered(events, rs[..n])
            && (rs[n].Confirm? ==> events[n].Command? && Parsed(events[n].line).Some? && OnBus(Parsed(events[n].line).value))
            && (rs[n].Ack? ==> events[n].Command? && events[n].line != [])
            && (rs[n] == Ack(Plain) && events[n].line[0] == 'S' as int ==>
                  |events[n].line| > 1 && BaudFromS(events[n].line[1]).Some?)
  {
    hide Parsed, BaudFromS, OpenOf, Canonical;
    var n := |rs| - 1;
    assert AnswerTo(events[n], rs[..n], rs[n]);
    forall m | 0 <= m < n ensures AnswerTo(events[m], rs[..n][..m], rs[..n][m]) {
      assert rs[..n][..m] == rs[..m];
    }
    if events[n].Command? && |events[n].line| > 1 {
      BitrateTable(events[n].line[1]);
    }
    if events[n].Command? && Parsed(events[n].line).Some? {
      ParsedSpells(events[n].line);
    }
  }

  lemma {:induction false} DialogueKept(events: seq<Event>, rs: seq<Sent>)
    requires AllAnswered(events, rs)
    ensures Frames(Dialogue(events, rs)) == ConfirmedFrames(events, rs)
    ensures Rates(Dialogue(events, rs)) == AnsweredRates(events, rs)
    ensures forall n :: 0 <= n < |ConfirmedFrames(events, rs)| ==> OnBus(ConfirmedFrames(events, rs)[n])
  {
    hide OnBus, Frames, Rates, Told, Parsed, BaudFromS, OpenOf, Answers;
    if rs == [] {
      NoneKept();
    } else {
      var n := |rs| - 1;
      InitAnswered(events, rs);
      DialogueKept(events, rs[..n]);
      KeptConcat(Dialogue(events, rs[..n]), Told(events[n], OpenOf(rs[..n]), rs[n]));
      ToldKept(events[n], rs[..n], rs[n]);
    }
  }

  lemma ToldKept(e: Event, before: seq<Sent>, u: Sent)
    requires AnswerTo(e, before, u)
    ensures var told := Told(e, OpenOf(before), u);
            && Frames(told) == (if u.Confirm? && e.Command? && Parsed(e.line).Some? then [Parsed(e.line).value] else [])
            && Rates(told) == (if u == Ack(Plain) && e.Command? && |e.line| > 1 && e.line[0] == 'S' as int && BaudFromS(e.line[1]).Some?
                               then [BaudFromS(e.line[1]).value] else [])
  {
    hide Parsed, BaudFromS, OpenOf, IdInRange;
    var told := Told(e, OpenOf(before), u);
    if told != [] {
      assert told[..0] == [];
    }
  }

  /** The same for all sessions of a task. */
  function FramesOf(past: seq<Session>): seq<CanFrame>
    requires PastInv(past)
  {
    if past == [] then []
    else
      var s := past[|past| - 1];
      FramesOf(past[..|past| - 1]) + ConfirmedFrames(s.events, Replies(s.told))
  }

  function RatesOf(past: seq<Session>): seq<BaudRate>
    requires PastInv(past)
  {
    if past == [] then []
    else
      var s := past[|past| - 1];
      RatesOf(past[..|past| - 1]) + AnsweredRates(s.events, Replies(s.told))
  }

  lemma {:induction false} ClosedKept(past: seq<Session>)
    requires PastInv(past)
    ensures Frames(Closed(past)) == FramesOf(past) && Rates(Closed(past)) == RatesOf(past)
  {
    hide ConfirmedFrames, AnsweredRates, Dialogue, LineInv, Replies, AllAnswered;
    if past != [] {
      var init, s := past[..|past| - 1], past[|past| - 1];
      ClosedKept(init);
      var end := if s.open then [Down] else [];
      KeptConcat(Closed(init), DeedsOf(s));
      KeptConcat(Closed(init) + DeedsOf(s), end);
      DialogueKept(s.events, Replies(s.told));
      assert end != [] ==> end[..0] == [];
    }
  }

  /** Per port, the frames it has put on the bus are the parsed frames of its confirmed lines, and
      the bitrates it has set are those of its `Sn` lines answered with CR, in order; each of those
      frames is canonical and in range. */
  lemma FramesAndRates(kinds: seq<Kind>, bs: seq<Bridge>, acts: seq<Action>, k: nat, i: nat)
    requires IsRun(kinds, bs, acts) && k < |bs| && i < |kinds|
    ensures i < |bs[k].tasks| && PastInv(bs[k].tasks[i].past)
    ensures var t := bs[k].tasks[i];
            var events, rs := t.s.events, Replies(t.s.told);
            && AllAnswered(events, rs)
            && Frames(Own(bs[k].log, i)) == FramesOf(t.past) + ConfirmedFrames(events, rs)
            && Rates(Own(bs[k].log, i)) == RatesOf(t.past) + AnsweredRates(events, rs)
            && forall n :: 0 <= n < |ConfirmedFrames(events, rs)| ==> OnBus(ConfirmedFrames(events, rs)[n])
  {
    hide IsRun, PastInv, AllAnswered, Replies, Frames, Rates, Closed, Own, Dialogue, ConfirmedFrames, AnsweredRates, OnBus,
         FlagInv, QueueInv, StreamInv, PhaseInv, LineInv;
    SessionOf(kinds, bs, acts, k, i);
    PortHistory(kinds, bs, acts, k, i);
    var t := bs[k].tasks[i];
    DialogueKept(t.s.events, Replies(t.s.told));
    ClosedKept(t.past);
    KeptConcat(Closed(t.past), DeedsOf(t.s));
  }

  /** How each lock region ends, in every run: `Sn` is acknowledged exactly for S2 to S8 while no
      port is open; a frame is confirmed exactly if its identifier is in range and the driver takes
      it, there being a controller always; the first opener chooses the mode, and the controller
      stops exactly with the last port. The log grows accordingly. */
  lemma LockRegion(kinds: seq<Kind>, bs: seq<Bridge>, acts: seq<Action>, k: nat)
    requires IsRun(kinds, bs, acts) && k < |acts| && acts[k].OnTask? && acts[k].move.Grant?
    ensures var i := acts[k].i;
            && i < |bs[k].tasks| == |bs[k + 1].tasks| && bs[k].tasks[i].s.phase.Asking?
            && bs[k + 1].tasks[i].s.told != []
            && RegionEnds(bs[k], bs[k + 1], i, acts[k].move.taken)
  {
    hide Inv, Apply, RegionEnds, OpenSet, CanMove;
    var b, i := bs[k], acts[k].i;
    RunInv(kinds, bs, acts, k);
    CountIsOpenPorts(kinds, bs, acts, k);
    CountIsOpenPorts(kinds, bs, acts, k + 1);
    LastRateIsSet(b);
    GrantAsks(b, i, acts[k].move.taken, acts[k].move.flags);
    if b.tasks[i].s.phase.c.Transmit? {
      TransmitHasController(kinds, bs, acts, k, i);
    }
    RegionStep(b, i, acts[k].move.taken, acts[k].move.flags);
  }

  predicate RegionEnds(b: Bridge, b': Bridge, i: nat, taken: bool)
    requires i < |b.tasks| == |b'.tasks| && b.tasks[i].s.phase.Asking? && b'.tasks[i].s.told != []
  {
    var told := b'.tasks[i].s.told;
    var u := told[|told| - 1];
    match b.tasks[i].s.phase.c
    case SetRate(d) =>
      if OpenSet(b.tasks) == {} && '2' as int <= d <= '8' as int
      then u == Ack(Plain) && BaudFromS(d).Some? && b'.log == b.log + [Entry(i, Rate(BaudFromS(d).value))]
      else u == Nak && b'.log == b.log
    case Transmit(f) =>
      if IdInRange(f) && taken then u == Confirm(f.ext) && b'.log == b.log + [Entry(i, Put(f))]
      else u == Nak && b'.log == b.log
    case OpenBus(listenOnly) =>
      && u == Ack(DidOpen) && b'.log == b.log + [Entry(i, Up(listenOnly))] && b'.mgr.twai.Some?
      && (OpenSet(b.tasks) == {} ==> b'.mgr.twai.value == Twai(LastRate(b.log), listenOnly))
    case CloseBus =>
      && u == Ack(DidClose) && b'.log == b.log + [Entry(i, Down)]
      && (b'.mgr.twai.None? <==> OpenSet(b.tasks) == {i})
    case Status => b'.log == b.log && b'.mgr == b.mgr
  }

  lemma GrantAsks(b: Bridge, i: nat, taken: bool, flags: byte)
    requires Enabled(b, OnTask(i, Grant(taken, flags)))
    ensures b.tasks[i].s.phase.Asking? && CmdFits(b.tasks[i].s.phase.c, b.tasks[i].s.open)
  {
  }

  lemma RegionStep(b: Bridge, i: nat, taken: bool, flags: byte)
    requires Enabled(b, OnTask(i, Grant(taken, flags))) && b.mgr.baud == LastRate(b.log)
    requires b.mgr.twai.Some? <==> b.mgr.openCount > 0
    requires b.mgr.openCount == 0 <==> OpenSet(b.tasks) == {}
    requires b.tasks[i].s.phase.Asking? && b.tasks[i].s.phase.c.Transmit? ==> b.mgr.twai.Some?
    requires var b' := Apply(b, OnTask(i, Grant(taken, flags)));
             b'.mgr.twai.Some? <==> OpenSet(b'.tasks) != {}
    ensures var b' := Apply(b, OnTask(i, Grant(taken, flags)));
            && |b.tasks| == |b'.tasks| && b.tasks[i].s.phase.Asking? && b'.tasks[i].s.told != []
            && RegionEnds(b, b', i, taken)
  {
    hide Serve, Deed, By, Apply, CmdFits, IdInRange, BaudFromS, LastRate;
    var s, b' := b.tasks[i].s, Apply(b, OnTask(i, Grant(taken, flags)));
    GrantAsks(b, i, taken, flags);
    GrantStep(b, i, taken, flags);
    Outcome(s.phase.c, s.open, b.mgr, taken, flags, i);
    assert b.log + [] == b.log;
    if s.phase.c.CloseBus? {
      ClosingIsOpen(s.phase.c, s.open);
      assert OpenSet(b'.tasks) == OpenSet(b.tasks) - {i};
    }
  }

  lemma ClosingIsOpen(c: Cmd, open: bool)
    requires CmdFits(c, open) && c.CloseBus?
    ensures open
  {
  }

  lemma LastRateIsSet(b: Bridge)
    requires Inv(b)
    ensures b.mgr.baud == LastRate(b.log)
  {
  }

  /** One lock region, given what the run guarantees about the manager. */
  lemma Outcome(c: Cmd, open: bool, m: Manager, taken: bool, flags: byte, i: nat)
    requires CmdFits(c, open) && (m.twai.Some? <==> m.openCount > 0) && (c.Transmit? ==> m.twai.Some?)
    ensures var r, log := Serve(c, open, m, taken, flags), By(i, Deed(c, m, taken));
            match c
            case SetRate(d) =>
              if m.openCount == 0 && '2' as int <= d <= '8' as int
              then r.u == Ack(Plain) && BaudFromS(d).Some? && log == [Entry(i, Rate(BaudFromS(d).value))]
              else r.u == Nak && log == []
            case Transmit(f) =>
              if IdInRange(f) && taken then r.u == Confirm(f.ext) && log == [Entry(i, Put(f))]
              else r.u == Nak && log == []
            case OpenBus(listenOnly) =>
              && r.u == Ack(DidOpen) && r.open && log == [Entry(i, Up(listenOnly))] && r.m.twai.Some?
              && (m.openCount == 0 ==> r.m.twai.value == Twai(m.baud, listenOnly))
            case CloseBus => r.u == Ack(DidClose) && !r.open && log == [Entry(i, Down)]
            case Status => log == [] && r.m == m
  {
    hide BaudFromS, Parsed, Shaped, IdFits;
    match c
    case SetRate(d) => BitrateTable(d);
    case Transmit(_) => SendsIffConfirmed(c, open, m, taken, flags);
    case _ =>
  }

  // ---- Counters -----------------------------------------------------------------------------------

  /** Confirmations whose bytes are on a link. */
  const ConfirmsSent: Weight := (t: Task) => PastConfirms(t.past) + Count(OnLink(t.s), IsConfirm)

  /** The port is between a successful transmission and the end of its reply. */
  const ConfirmsPending: Weight := (t: Task) => if ConfirmPending(t.s) then 1 else 0

  function OnLink(s: Session): seq<Sent>
  {
    if s.phase.Saying? && s.told != [] then s.told[..|s.told| - 1] else s.told
  }

  predicate ConfirmPending(s: Session)
  {
    s.phase.Saying? && s.told != [] && s.told[|s.told| - 1].Confirm?
  }

  lemma ConfirmSplit(t: Task)
    ensures Confirms(t) == ConfirmsSent(t) + ConfirmsPending(t)
  {
    if t.s.phase.Saying? && t.s.told != [] {
      var u := t.s.told[|t.s.told| - 1];
      assert IsConfirm(u) <==> u.Confirm?;
    }
  }

  lemma {:induction false} SumSplit(ts: seq<Task>)
    ensures Sum(ts, Confirms) == Sum(ts, ConfirmsSent) + Sum(ts, ConfirmsPending)
  {
    hide Count;
    if ts != [] {
      SumSplit(ts[..|ts| - 1]);
      ConfirmSplit(ts[|ts| - 1]);
    }
  }

  /** Conservation over all ports and runs: successful transmissions are the z/Z confirmations
      sent plus the ports between transmit and reply; they never exceed the valid frames that
      arrived, and the difference is exactly the refused ones and those waiting for the lock. The
      in counters are the valid frames among the commands of the serial and of the other ports. */
  lemma TransmissionsConserved(kinds: seq<Kind>, bs: seq<Bridge>, acts: seq<Action>, k: nat)
    requires IsRun(kinds, bs, acts) && k < |bs|
    ensures bs[k].tx == |OnTheBus(bs[k].log)| == Sum(bs[k].tasks, ConfirmsSent) + Sum(bs[k].tasks, ConfirmsPending)
    ensures bs[k].tx + bs[k].refused + Sum(bs[k].tasks, InFlight) == bs[k].serIn + bs[k].tcpIn
    ensures bs[k].tx <= bs[k].serIn + bs[k].tcpIn
    ensures bs[k].serIn == Sum(bs[k].tasks, SerialIn) && bs[k].tcpIn == Sum(bs[k].tasks, TcpIn)
    ensures bs[k].serOut == Sum(bs[k].tasks, SerialOut) && bs[k].tcpOut == Sum(bs[k].tasks, TcpOut)
  {
    hide IsRun, TaskInv, LogInv, Attributed, OnBus, Sum, OnTheBus;
    RunInv(kinds, bs, acts, k);
    SumSplit(bs[k].tasks);
  }

  // ---- Subscribers and TCP clients ----------------------------------------------------------------

  /** The tasks the firmware spawns. */
  const FIRMWARE: seq<Kind> := [Uart, TcpServer, TcpServer, AutoConnect]

  /** With the firmware's tasks there are never more than 4 subscribers, a task that is about to
      subscribe finds a free slot, and the client counter is the number of TCP and auto-connect
      tasks in their connected phase: never negative, at most 3. */
  lemma SubscribersFit(bs: seq<Bridge>, acts: seq<Action>, k: nat)
    requires IsRun(FIRMWARE, bs, acts) && k < |bs|
    ensures Sum(bs[k].tasks, Subscribers) <= 4
    ensures k < |acts| && acts[k].OnTask? && acts[k].move.Connect? ==> Sum(bs[k].tasks, Subscribers) < 4
    ensures bs[k].clients == Sum(bs[k].tasks, Clients)
    ensures 0 <= bs[k].clients <= 3
  {
    hide TaskInv, LogInv, Attributed, OnBus, Moved, OnTheBus;
    RunInv(FIRMWARE, bs, acts, k);
    var ts := bs[k].tasks;
    SumAtMost(ts, Subscribers);
    if k < |acts| && acts[k].OnTask? && acts[k].move.Connect? {
      SumBounds(ts, acts[k].i, Subscribers);
    }
    assert ts[0].kind == Uart;
    SumBounds(ts, 0, Clients);
  }
}
