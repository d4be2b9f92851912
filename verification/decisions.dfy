/** The two notification decisions in the course of a run. */
module Decisions {
  import opened Words
  import opened Memory
  import opened VirtqLayout
  import opened Rings
  import opened DriverSpec
  import opened DriverFacts
  import D = DeviceSpec
  import opened DeviceSide
  import opened Notify
  import opened Queue
  import opened Runs

  /** What `needs_kick` answers. */
  function KickDecision(l: Layout, eventIdx: bool, w: World): bool
    requires l.Valid() && RingsIn(w.mem, l)
  {
    !eventIdx || NeedEvent(View(w.mem, l).availEvent, w.drv.availIdx, w.drv.lastKick)
  }

  /** What `needs_notification` answers. */
  function InterruptDecision(l: Layout, eventIdx: bool, w: World): bool
    requires l.Valid() && RingsIn(w.mem, l)
  {
    !eventIdx || NeedEvent(View(w.mem, l).usedEvent, w.dev.nextUsed, Wrap(w.dev.nextUsed - w.dev.numAdded))
  }

  lemma GoodCounters(l: Layout, w: World)
    requires Good(l, w)
    ensures l.Valid() && RingsIn(w.mem, l)
    ensures |w.log.collected| <= |w.log.completed| == |w.log.popped| <= |w.log.published|
    ensures w.drv.availIdx == Wrap(|w.log.published|) && w.dev.nextUsed == Wrap(|w.log.completed|)
    ensures w.drv.lastUsed == Wrap(|w.log.collected|) && w.dev.nextAvail == Wrap(|w.log.popped|)
    ensures w.log.kickAt <= |w.log.published| && w.drv.lastKick == Wrap(w.log.kickAt)
    ensures w.log.notifyAt <= |w.log.completed|
    ensures Wrap(w.dev.nextUsed - w.dev.numAdded) == Wrap(w.log.notifyAt)
  {
    hide View, Owned, Fifo, Slots, Written, Wrap;
  }

  /** In every state of every run the two decisions are about what happened since the previous one of their
      kind: the kick decision about the publications since the last kick decision, the interrupt decision
      about the completions since the last interrupt decision. */
  lemma DecisionsExactly(l: Layout, w: World)
    requires Good(l, w)
    ensures var p, e := |w.log.published|, View(w.mem, l).availEvent;
      KickDecision(l, true, w) <==> exists v: int :: p - Wrap(p - w.log.kickAt) < v <= p && Due(e, v)
    ensures var u, e := |w.log.completed|, View(w.mem, l).usedEvent;
      InterruptDecision(l, true, w) <==> exists v: int :: u - Wrap(u - w.log.notifyAt) < v <= u && Due(e, v)
  {
    hide View, Good, NeedEvent, Due, Wrap;
    GoodCounters(l, w);
    NeedEventExactly(View(w.mem, l).availEvent, w.log.kickAt, |w.log.published|);
    NeedEventExactly(View(w.mem, l).usedEvent, w.log.notifyAt, |w.log.completed|);
  }

  // ---------------------------------------------------------------- who writes the event fields

  /** `used_event` changes only when the driver arms it, `avail_event` only when the device re-arms. */
  lemma EventsKept(l: Layout, eventIdx: bool, w: World, op: Op)
    requires Good(l, w) && Honest(l, op)
    ensures var w' := Step(l, eventIdx, w, op);
      && |w'.mem| == |w.mem|
      && View(w'.mem, l).usedEvent == (if op.Arm? then w.drv.lastUsed else View(w.mem, l).usedEvent)
      && View(w'.mem, l).availEvent == (if op.Enable? && eventIdx then w.dev.nextAvail else View(w.mem, l).availEvent)
      && (!op.Notify? ==> w'.log.notifyAt == w.log.notifyAt)
      && (!op.Kick? ==> w'.log.kickAt == w.log.kickAt)
  {
    hide View, SubmitMem, WholePass, Put, Rearmed, Collect, RingsInv, Patch;
    Widths();
    match op
    case Submit(buffers) =>
      if |buffers| <= |w.drv.free| {
        OwnedParts(l, w);
        SubmitView(l, w.mem, w.drv, buffers);
      }
    case Process(work) => ProcessEvents(l, w, work);
    case CollectUsed =>
    case Kick =>
    case Notify =>
    case Arm => ViewOfPut(w.mem, l, UsedEvent, w.drv.lastUsed);
    case Enable => RearmedView(w.mem, l, w.dev, eventIdx);
    case GuestWrite(addr, data) =>
      if addr + |data| <= |w.mem| {
        GuestKeepsRings(l, w.mem, addr, data);
        ViewKept(w.mem, Patch(w.mem, addr, data), l);
      }
  }

  lemma GuestKeepsRings(l: Layout, m: seq<byte>, addr: u64, data: seq<byte>)
    requires addr + |data| <= |m| && (|data| == 0 || addr + |data| <= l.descTable || l.End() <= addr)
    ensures SameRings(m, Patch(m, addr, data), l)
  {
  }

  lemma OwnedParts(l: Layout, w: World)
    requires Good(l, w)
    ensures Partition(l.queueSize, w.drv.free, w.drv.outstanding)
  {
    hide View, Partition, Fifo, Slots, Written, Counters;
  }

  lemma ProcessEvents(l: Layout, w: World, work: D.Work)
    requires Good(l, w)
    ensures var r, r' := View(w.mem, l), View(ProcessWorld(l, w, work).mem, l);
      r'.usedEvent == r.usedEvent && r'.availEvent == r.availEvent
    ensures |ProcessWorld(l, w, work).mem| == |w.mem|
  {
    hide View, WholePass, RingsInv, Wrap;
    PassAdvances(l, w, work);
  }

  // ---------------------------------------------------------------- interrupts reach a driver that has caught up

  lemma {:induction false} QuietRun(l: Layout, eventIdx: bool, w: World, ops: seq<Op>)
    requires Good(l, w) && forall op | op in ops :: Honest(l, op) && !op.Arm? && !op.Notify?
    ensures var w' := Run(l, eventIdx, w, ops);
      && l.Valid() && RingsIn(w'.mem, l)
      && View(w'.mem, l).usedEvent == View(w.mem, l).usedEvent && w'.log.notifyAt == w.log.notifyAt
  {
    hide View, Good, Step, Honest;
    GoodCounters(l, Run(l, eventIdx, w, ops));
    if ops != [] {
      var front := ops[..|ops| - 1];
      QuietRun(l, eventIdx, w, front);
      EventsKept(l, eventIdx, Run(l, eventIdx, w, front), ops[|ops| - 1]);
    }
  }

  /** A driver that arms its event when it has collected everything is interrupted by the first decision
      after at least one further completion, whatever else happens in between and however many completions
      that decision covers, as long as fewer than 65536 completions fall between two decisions. */
  lemma ArmedInterruptFires(l: Layout, eventIdx: bool, w: World, ops: seq<Op>)
    requires Good(l, w) && |w.log.collected| == |w.log.completed|
    requires forall op | op in ops :: Honest(l, op) && !op.Arm? && !op.Notify?
    ensures Good(l, Step(l, eventIdx, w, Arm))
    ensures var w' := Run(l, eventIdx, Step(l, eventIdx, w, Arm), ops);
      |w.log.completed| < |w'.log.completed| < w.log.notifyAt + 0x1_0000 ==> InterruptDecision(l, eventIdx, w')
  {
    hide View, Good, Run, Put, NeedEvent, Wrap;
    GoodCounters(l, w);
    StepKeeps(l, eventIdx, w, Arm);
    var w0 := Step(l, eventIdx, w, Arm);
    EventsKept(l, eventIdx, w, Arm);
    QuietRun(l, eventIdx, w0, ops);
    var w' := Run(l, eventIdx, w0, ops);
    GoodCounters(l, w');
    var at, now := |w.log.completed|, |w'.log.completed|;
    if at < now < w.log.notifyAt + 0x1_0000 {
      FiresUnlessPassed(at, w.log.notifyAt, now);
    }
  }

  /** Without having collected everything the guarantee fails exactly when the device's previous decision had
      already gone past what the driver collected, because arming does not look again. */
  lemma ArmedInterruptExactly(l: Layout, w: World, armedAt: nat)
    requires Good(l, w) && View(w.mem, l).usedEvent == Wrap(armedAt)
    requires armedAt < |w.log.completed| < armedAt + 0x1_0000
    requires |w.log.completed| < w.log.notifyAt + 0x1_0000
    ensures InterruptDecision(l, true, w) <==> w.log.notifyAt <= armedAt
  {
    hide View, Good, NeedEvent, Wrap;
    GoodCounters(l, w);
    FiresUnlessPassed(armedAt, w.log.notifyAt, |w.log.completed|);
  }

  /** How far a run has come: completions, collections, the last interrupt decision, and free descriptors. */
  ghost predicate Stands(l: Layout, w: World, published: nat, completed: nat, notifyAt: nat, free: nat) {
    && Good(l, w) && |w.log.published| == published && |w.log.completed| == completed && |w.log.collected| == 0
    && w.log.notifyAt == notifyAt && |w.drv.free| == free
    && l.Valid() && RingsIn(w.mem, l) && View(w.mem, l).usedEvent == 0
  }

  lemma SubmitStands(l: Layout, w: World, buffers: seq<Buffer>, p: nat, c: nat, n: nat, free: nat)
    requires Stands(l, w, p, c, n, free) && Honest(l, Submit(buffers)) && |buffers| <= free
    ensures Stands(l, Step(l, true, w, Submit(buffers)), p + 1, c, n, free - |buffers|)
  {
    hide Good, View, SubmitMem, WellOrdered, AvoidRings, Taken;
    StepKeeps(l, true, w, Submit(buffers));
    EventsKept(l, true, w, Submit(buffers));
  }

  lemma ProcessStands(l: Layout, w: World, work: D.Work, p: nat, c: nat, n: nat, free: nat)
    requires Stands(l, w, p, c, n, free)
    ensures Stands(l, Step(l, true, w, Process(work)), p, p, n, free)
  {
    hide Inv, View, WholePass;
    StepKeeps(l, true, w, Process(work));
    EventsKept(l, true, w, Process(work));
    ProcessKeeps(l, w, work);
  }

  lemma NotifyArmStand(l: Layout, w: World, p: nat, c: nat, n: nat, free: nat)
    requires Stands(l, w, p, c, n, free)
    ensures Stands(l, Step(l, true, w, Notify), p, c, c, free)
    ensures Stands(l, Step(l, true, w, Arm), p, c, n, free)
  {
    hide Good, View, Put, Wrap;
    GoodCounters(l, w);
    StepKeeps(l, true, w, Notify);
    EventsKept(l, true, w, Notify);
    StepKeeps(l, true, w, Arm);
    EventsKept(l, true, w, Arm);
    WrapSmall(0);
  }

  ghost predicate AllHonest(l: Layout, ops: seq<Op>) {
    forall op | op in ops :: Honest(l, op)
  }

  /** The run of these operations has come that far. */
  ghost predicate RunStands(l: Layout, w: World, ops: seq<Op>, published: nat, completed: nat, notifyAt: nat,
                            free: nat)
  {
    && Good(l, w) && AllHonest(l, ops)
    && Stands(l, Run(l, true, w, ops), published, completed, notifyAt, free)
  }

  lemma RunMore(l: Layout, w: World, ops: seq<Op>, op: Op)
    requires Good(l, w) && AllHonest(l, ops) && Honest(l, op)
    ensures AllHonest(l, ops + [op])
    ensures Run(l, true, w, ops + [op]) == Step(l, true, Run(l, true, w, ops), op)
  {
    hide Good, Step, Honest;
    assert (ops + [op])[..|ops|] == ops;
  }

  lemma ThenSubmit(l: Layout, w: World, ops: seq<Op>, buffers: seq<Buffer>, p: nat, c: nat, n: nat, free: nat)
    requires RunStands(l, w, ops, p, c, n, free) && Honest(l, Submit(buffers)) && |buffers| <= free
    ensures RunStands(l, w, ops + [Submit(buffers)], p + 1, c, n, free - |buffers|)
  {
    hide Good, Step, Run, Stands, Honest;
    RunMore(l, w, ops, Submit(buffers));
    SubmitStands(l, Run(l, true, w, ops), buffers, p, c, n, free);
  }

  lemma ThenProcess(l: Layout, w: World, ops: seq<Op>, work: D.Work, p: nat, c: nat, n: nat, free: nat)
    requires RunStands(l, w, ops, p, c, n, free)
    ensures RunStands(l, w, ops + [Process(work)], p, p, n, free)
  {
    hide Good, Step, Run, Stands;
    RunMore(l, w, ops, Process(work));
    ProcessStands(l, Run(l, true, w, ops), work, p, c, n, free);
  }

  lemma ThenNotifyArm(l: Layout, w: World, ops: seq<Op>, p: nat, c: nat, n: nat, free: nat)
    requires RunStands(l, w, ops, p, c, n, free)
    ensures RunStands(l, w, ops + [Notify] + [Arm], p, c, c, free)
  {
    hide Good, Step, Run, Stands;
    RunMore(l, w, ops, Notify);
    NotifyArmStand(l, Run(l, true, w, ops), p, c, n, free);
    RunMore(l, w, ops + [Notify], Arm);
    NotifyArmStand(l, Run(l, true, w, ops + [Notify]), p, c, c, free);
  }

  lemma FreshStands(l: Layout, mem: seq<byte>)
    requires l.Valid() && RingsIn(mem, l) && forall p | 0 <= p < |mem| :: mem[p] == 0
    ensures Good(l, NewWorld(l, mem)) && RunStands(l, NewWorld(l, mem), [], 0, 0, 0, l.queueSize)
  {
    hide Good, View;
    NewIsGood(l, mem);
  }

  /** The guarantee does fail: a driver that arms while one completion that it has not collected was already
      decided about gets no interrupt for the next one. */
  lemma ArmedTooLate(l: Layout, mem: seq<byte>, buffers: seq<Buffer>, work: D.Work)
    requires l.Valid() && RingsIn(mem, l) && forall p | 0 <= p < |mem| :: mem[p] == 0
    requires Honest(l, Submit(buffers)) && 2 * |buffers| <= l.queueSize
    ensures var ops := [Submit(buffers), Process(work), Notify, Arm, Submit(buffers), Process(work)];
      var w0 := NewWorld(l, mem);
      && Good(l, w0) && AllHonest(l, ops)
      && var w := Run(l, true, w0, ops);
         && |w.log.collected| == 0 && |w.log.completed| == 2 && RingsIn(w.mem, l)
         && !InterruptDecision(l, true, w)
  {
    hide Run, Good, NewWorld, View, Honest, InterruptDecision;
    var qs, b, w0, s, p := l.queueSize, |buffers|, NewWorld(l, mem), Submit(buffers), Process(work);
    var ops := [] + [s] + [p] + [Notify] + [Arm] + [s] + [p];
    assert ops == [s, p, Notify, Arm, s, p];
    TooLateRun(l, mem, buffers, work);
    ArmedInterruptExactly(l, Run(l, true, w0, ops), 0);
  }

  lemma SubmitAndProcess(l: Layout, w: World, ops: seq<Op>, buffers: seq<Buffer>, work: D.Work,
                         p: nat, n: nat, free: nat)
    requires RunStands(l, w, ops, p, p, n, free) && Honest(l, Submit(buffers)) && |buffers| <= free
    ensures RunStands(l, w, ops + [Submit(buffers)] + [Process(work)], p + 1, p + 1, n, free - |buffers|)
  {
    hide RunStands, Honest;
    ThenSubmit(l, w, ops, buffers, p, p, n, free);
    ThenProcess(l, w, ops + [Submit(buffers)], work, p + 1, p, n, free - |buffers|);
  }

  lemma ThenTooLate(l: Layout, w: World, ops: seq<Op>, buffers: seq<Buffer>, work: D.Work, free: nat)
    requires RunStands(l, w, ops, 1, 1, 0, free) && Honest(l, Submit(buffers)) && |buffers| <= free
    ensures RunStands(l, w, ops + [Notify] + [Arm] + [Submit(buffers)] + [Process(work)], 2, 2, 1, free - |buffers|)
  {
    hide RunStands, Honest;
    ThenNotifyArm(l, w, ops, 1, 1, 0, free);
    SubmitAndProcess(l, w, ops + [Notify] + [Arm], buffers, work, 1, 1, free);
  }

  lemma TooLateRun(l: Layout, mem: seq<byte>, buffers: seq<Buffer>, work: D.Work)
    requires l.Valid() && RingsIn(mem, l) && forall p | 0 <= p < |mem| :: mem[p] == 0
    requires Honest(l, Submit(buffers)) && 2 * |buffers| <= l.queueSize
    ensures RunStands(l, NewWorld(l, mem),
              [] + [Submit(buffers)] + [Process(work)] + [Notify] + [Arm] + [Submit(buffers)] + [Process(work)],
              2, 2, 1, l.queueSize - 2 * |buffers|)
  {
    hide RunStands, NewWorld, Honest, Layout.Valid, RingsIn;
    var qs, b, w := l.queueSize, |buffers|, NewWorld(l, mem);
    FreshStands(l, mem);
    SubmitAndProcess(l, w, [], buffers, work, 0, 0, qs);
    ThenTooLate(l, w, [] + [Submit(buffers)] + [Process(work)], buffers, work, qs - b);
  }
}
