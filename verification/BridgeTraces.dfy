/** What the environment's actions alone say about a run: which frames were polled, where each
    subscription starts, which token and bytes each link has carried, and what each step writes. */
module BridgeTraces {
  import opened Bytes
  import opened Hex
  import opened Slcan
  import opened Can
  import opened Wire
  import opened LineAssembly
  import opened Protocol
  import opened Port
  import opened Bridge
  import opened BridgeTheorems

  // ---- A run told by its actions --------------------------------------------------------------------

  predicate Polled(acts: seq<Action>)
  {
    forall k :: 0 <= k < |acts| && acts[k].Poll? ==> ValidEsp(acts[k].e)
  }

  /** The frames taken from the controller, in order. */
  function Polls(acts: seq<Action>): seq<CanFrame>
    requires Polled(acts)
  {
    if acts == [] then []
    else Polls(acts[..|acts| - 1]) + (if acts[|acts| - 1].Poll? then [FromEsp(acts[|acts| - 1].e)] else [])
  }

  /** A task's life, where its subscription starts, and the token and bytes of its link. */
  datatype Story = Story(life: Life, start: nat, token: Option<seq<byte>>, bytes: seq<byte>)

  function Next(kind: Kind, before: Story, published: nat, mv: Move): Story
  {
    match mv
    case Connect(tls, token) => Story(if tls then Handshake else Running, published, token, [])
    case Shake(ok, token) => if ok then before.(life := Running, token := token) else Story(Closing, 0, None, [])
    case Recv(chunk) => before.(bytes := before.bytes + chunk)
    case Release => Story(Closing, 0, None, [])
    case Leave => before.(life := if kind.Uart? then Done else Cooling)
    case Rest => before.(life := Idle)
    case _ => before
  }

  function StoryOf(kind: Kind, acts: seq<Action>, i: nat): Story
    requires Polled(acts)
  {
    if acts == [] then Story(Idle, 0, None, [])
    else
      var init, last := acts[..|acts| - 1], acts[|acts| - 1];
      var before := StoryOf(kind, init, i);
      if last.OnTask? && last.i == i then Next(kind, before, |Polls(init)|, last.move) else before
  }

  /** The task is where the story says. */
  predicate AsTold(t: Task, st: Story)
  {
    && t.life == st.life && t.s.start == st.start && t.s.token == st.token
    && t.s.received + t.s.chunk == st.bytes
  }

  lemma MoveTold(t: Task, polled: seq<CanFrame>, m: Manager, mv: Move, st: Story)
    requires TaskInv(t, polled) && CanMove(t, polled, mv) && AsTold(t, st)
    ensures AsTold(Moved(t, polled, m, mv).t, Next(t.kind, st, |polled|, mv))
  {
    hide SessionInv, PastInv, Take, PlanFor, Serve, CmdFits, AllValid, Render, Oldest;
    if mv.Byte? {
      ByteTold(t.s);
    }
    assert t.s.received + [] == t.s.received;
  }

  lemma ByteTold(s: Session)
    requires s.phase.Ready? && s.chunk != []
    ensures var s' := OnByte(s);
            s'.start == s.start && s'.token == s.token && s'.received + s'.chunk == s.received + s.chunk
  {
    hide Take, PlanFor;
    assert s.received + [s.chunk[0]] + s.chunk[1..] == s.received + s.chunk;
  }

  lemma RunPolled(kinds: seq<Kind>, bs: seq<Bridge>, acts: seq<Action>, k: nat)
    requires IsRun(kinds, bs, acts) && k <= |acts|
    ensures Polled(acts[..k])
  {
    hide CanMove, Apply;
  }

  /** In every state of every run, the frames published, and each task's life, subscription, token
      and input, are what the actions so far say: every byte a link delivered was taken in order and
      is either assembled or next in its chunk. */
  lemma {:induction false} Provenance(kinds: seq<Kind>, bs: seq<Bridge>, acts: seq<Action>, k: nat, i: nat)
    requires IsRun(kinds, bs, acts) && k < |bs| && i < |kinds|
    ensures i < |bs[k].tasks| && Polled(acts[..k])
    ensures bs[k].polled == Polls(acts[..k])
    ensures AsTold(bs[k].tasks[i], StoryOf(kinds[i], acts[..k], i))
  {
    hide Inv, CanMove, Moved, AsTold, Next, ValidEsp;
    RunInv(kinds, bs, acts, k);
    RunPolled(kinds, bs, acts, k);
    if k == 0 {
      StartTold(kinds, i);
    } else {
      Provenance(kinds, bs, acts, k - 1, i);
      RunInv(kinds, bs, acts, k - 1);
      var b, a := bs[k - 1], acts[k - 1];
      assert acts[..k][..k - 1] == acts[..k - 1];
      if a.OnTask? && a.i == i {
        TaskOf(b, i);
        MoveTold(b.tasks[i], b.polled, b.mgr, a.move, StoryOf(kinds[i], acts[..k - 1], i));
      }
    }
  }

  lemma TaskOf(b: Bridge, i: nat)
    requires Inv(b) && i < |b.tasks|
    ensures TaskInv(b.tasks[i], b.polled)
  {
  }

  lemma StartTold(kinds: seq<Kind>, i: nat)
    requires i < |kinds|
    ensures AsTold(Start(kinds).tasks[i], Story(Idle, 0, None, []))
  {
    assert Start(kinds).tasks[i] == Task(kinds[i], Idle, Fresh(0), []);
  }

  // ---- Subscriptions ----------------------------------------------------------------------------------

  /** The action ends task `i`'s session or starts another. */
  predicate Ends(a: Action, i: nat)
  {
    a.OnTask? && a.i == i && (a.move.Connect? || a.move.Release? || (a.move.Shake? && !a.move.ok))
  }

  lemma {:induction false} StartStays(kind: Kind, acts: seq<Action>, j: nat, k: nat, i: nat)
    requires j < k <= |acts| && Polled(acts[..k]) && acts[j].OnTask? && acts[j].i == i && acts[j].move.Connect?
    requires forall n :: j < n < k ==> !Ends(acts[n], i)
    ensures Polled(acts[..j]) && StoryOf(kind, acts[..k], i).start == |Polls(acts[..j])|
  {
    assert acts[..k][..k - 1] == acts[..k - 1];
    assert forall n :: 0 <= n < j ==> acts[..j][n] == acts[..k][n];
    if j + 1 < k {
      assert forall n :: 0 <= n < k - 1 ==> acts[..k - 1][n] == acts[..k][n];
      StartStays(kind, acts, j, k - 1, i);
      assert !Ends(acts[k - 1], i);
    }
  }

  /** A new subscriber sees only later frames: from the `Connect` that starts a session until its end,
      the subscription starts at what had been published then, and every frame forwarded is one polled
      after it. */
  lemma SubscribedFrom(kinds: seq<Kind>, bs: seq<Bridge>, acts: seq<Action>, j: nat, k: nat, i: nat)
    requires IsRun(kinds, bs, acts) && j < k < |bs| && i < |kinds|
    requires acts[j].OnTask? && acts[j].i == i && acts[j].move.Connect?
    requires forall n :: j < n < k ==> !Ends(acts[n], i)
    ensures i < |bs[k].tasks| && bs[k].tasks[i].s.start == |bs[j].polled| <= |bs[k].polled|
    ensures var s := bs[k].tasks[i].s;
            && (forall n :: 0 <= n < |s.taken| ==> |bs[j].polled| <= s.taken[n] < |bs[k].polled|)
            && Forwards(s.told) == Pick(bs[k].polled, s.taken) && Increasing(s.taken)
  {
    hide Enabled, Apply, Ends, StoryOf, Polls, Polled, Forwards, Increasing, Pick;
    Provenance(kinds, bs, acts, j, i);
    Provenance(kinds, bs, acts, k, i);
    StartStays(kinds[i], acts, j, k, i);
    DeliveryIsOrdered(kinds, bs, acts, k, i);
  }

  /** When the client counter and the subscriptions change: both grow when a link comes up, before any
      handshake; the counter falls when the link is left, the subscription ends after the pause that
      follows. The serial port is no client and never leaves its subscription. */
  lemma LinkSteps(kinds: seq<Kind>, bs: seq<Bridge>, acts: seq<Action>, k: nat)
    requires IsRun(kinds, bs, acts) && k < |acts|
    ensures acts[k].OnTask? ==> acts[k].i < |kinds|
    ensures bs[k + 1].clients - bs[k].clients ==
            if acts[k].OnTask? && kinds[acts[k].i] != Uart && acts[k].move.Connect? then 1
            else if acts[k].OnTask? && kinds[acts[k].i] != Uart && acts[k].move.Leave? then -1
            else 0
    ensures acts[k].OnTask? ==>
              var i := acts[k].i;
              && i < |bs[k].tasks| == |bs[k + 1].tasks|
              && Subscribers(bs[k + 1].tasks[i]) as int - Subscribers(bs[k].tasks[i]) as int ==
                 if acts[k].move.Connect? then 1
                 else if acts[k].move.Leave? && kinds[i] == Uart then -1
                 else if acts[k].move.Rest? then -1
                 else 0
  {
    hide Inv, SessionInv, OnServe, OnByte, OnSay, OnFrame, CmdFits, AllValid, By, Deed, Sends, FrameArrives, Forwards;
    RunInv(kinds, bs, acts, k);
    RunInv(kinds, bs, acts, k + 1);
  }

  // ---- What each step of a port writes ----------------------------------------------------------------

  /** Taking a broadcast frame: the front of the port's queue is to be written exactly if its stream
      shows the channel open, with the time of the step exactly if it shows timestamps on. */
  lemma FrameTaken(kinds: seq<Kind>, bs: seq<Bridge>, acts: seq<Action>, k: nat)
    requires IsRun(kinds, bs, acts) && k < |acts| && acts[k].OnTask? && acts[k].move.Broadcast?
    ensures var i := acts[k].i;
            && i < |bs[k].tasks| == |bs[k + 1].tasks| && bs[k].tasks[i].s.cursor <= |bs[k].polled|
            && var q, told := QueueOf(bs[k].tasks[i].s, bs[k].polled), bs[k].tasks[i].s.told;
               && q != []
               && bs[k + 1].tasks[i].s.told ==
                  if OpenOf(told) then told + [Forward(q[0], if StampOf(told) then Some(acts[k].move.now) else None)]
                  else told
  {
    hide SessionInv, OpenOf, StampOf, QueueOf, OnFrame;
    var i := acts[k].i;
    RunInv(kinds, bs, acts, k);
    SessionOf(kinds, bs, acts, k, i);
    var s := bs[k].tasks[i].s;
    FlagsOfSession(s, bs[k].polled);
    ReceiveIsDequeue(s, bs[k].polled, acts[k].move.now);
  }

  lemma FlagsOfSession(s: Session, polled: seq<CanFrame>)
    requires SessionInv(s, polled)
    ensures s.open == OpenOf(s.told) && s.ts == StampOf(s.told) && s.cursor <= |polled|
  {
  }

  /** The bytes end in four hex digits that denote `t`, and CR. */
  predicate EndsInStamp(s: seq<byte>, t: nat)
  {
    var n := |s|;
    n >= 5 && AllHex(s[n - 5..n - 1]) && HexValue(s[n - 5..n - 1]) == t && s[n - 1] == '\r' as int
  }

  /** Writing: the link carries exactly the bytes of the unit issued last. A forwarded frame with a
      timestamp ends in the four hex digits that denote it and CR. */
  lemma UnitWritten(kinds: seq<Kind>, bs: seq<Bridge>, acts: seq<Action>, k: nat)
    requires IsRun(kinds, bs, acts) && k < |acts| && acts[k].OnTask? && acts[k].move.Write?
    ensures var i := acts[k].i;
            && i < |bs[k].tasks| == |bs[k + 1].tasks| && bs[k].tasks[i].s.told != []
            && var told, out, out' := bs[k].tasks[i].s.told, bs[k].tasks[i].s.out, bs[k + 1].tasks[i].s.out;
               var u := told[|told| - 1];
               && ValidSent(u) && out' == out + Render(u)
               && (u.Forward? && u.ts.Some? ==> EndsInStamp(out', u.ts.value))
  {
    hide Render, EndsInStamp, Inv, OnBus;
    var i := acts[k].i;
    RunInv(kinds, bs, acts, k);
    var s := bs[k].tasks[i].s;
    var u := s.told[|s.told| - 1];
    if u.Forward? && u.ts.Some? {
      StampEnds(s.out, u);
    }
  }

  lemma StampEnds(out: seq<byte>, u: Sent)
    requires ValidSent(u) && u.Forward? && u.ts.Some?
    ensures EndsInStamp(out + Render(u), u.ts.value)
  {
    hide FrameLine, HexValue, Nibble;
    StampDenotes(u.f, u.ts.value);
    var line := FrameLine(u.f, u.ts);
    var all := out + line;
    assert all[|all| - 5..|all| - 1] == line[|line| - 5..|line| - 1];
  }

  /** An outbound link starts with `H`, the token and CR; any other stream starts with the port's own
      units. */
  lemma GreetingOnLink(kinds: seq<Kind>, bs: seq<Bridge>, acts: seq<Action>, k: nat, i: nat)
    requires IsRun(kinds, bs, acts) && k < |bs| && i < |kinds|
    ensures i < |bs[k].tasks|
    ensures var s := bs[k].tasks[i].s;
            && (s.phase.Saying? ==> s.told != []) && AllValid(Written(s))
            && s.out == (if s.token.Some? then Ascii("H") + s.token.value + Ascii("\r") else []) + RenderAll(Written(s))
  {
    hide IsRun, RenderAll, LineInv, FlagInv, ReplyInv, QueueInv, PhaseInv, ValidSent;
    SessionOf(kinds, bs, acts, k, i);
    assert Ascii("H") == ['H' as int] && Ascii("\r") == [CR];
  }

  /** What can happen outside `run_port`: a link comes up only on an idle task, over TLS or with a token
      only on the outbound one; a handshake ends; a task that left cools down; and frames are polled
      exactly while some port is open. */
  lemma OutsideMoves(kinds: seq<Kind>, bs: seq<Bridge>, acts: seq<Action>, k: nat, i: nat, mv: Move, e: EspFrame)
    requires IsRun(kinds, bs, acts) && k < |bs| && i < |kinds|
    ensures Enabled(bs[k], Poll(e)) <==> OpenSet(bs[k].tasks) != {} && ValidEsp(e)
    ensures i < |bs[k].tasks|
    ensures match bs[k].tasks[i].life
            case Idle =>
              Enabled(bs[k], OnTask(i, mv)) <==>
                mv.Connect? && (mv.tls ==> mv.token.None?) && (mv.tls || mv.token.Some? ==> kinds[i] == AutoConnect)
            case Handshake => Enabled(bs[k], OnTask(i, mv)) <==> mv.Shake?
            case Running => !(mv.Connect? || mv.Shake? || mv.Leave? || mv.Rest?) || !Enabled(bs[k], OnTask(i, mv))
            case Closing => Enabled(bs[k], OnTask(i, mv)) <==> mv.Leave?
            case Cooling => Enabled(bs[k], OnTask(i, mv)) <==> mv.Rest?
            case Done => !Enabled(bs[k], OnTask(i, mv))
  {
    hide IsRun, Inv, CmdFits, AllValid, OpenSet;
    RunInv(kinds, bs, acts, k);
    CountIsOpenPorts(kinds, bs, acts, k);
  }
}
