/** The loop of `bench_notification`, whose kick and interrupt counts are exact
    (toy-virtq-raw/src/main.rs:374-420). */
module Bench {
  import opened Words
  import opened Memory
  import opened VirtqLayout
  import opened Rings
  import opened DriverSpec
  import opened DriverFacts
  import opened Arena
  import opened Notify
  import D = DeviceSpec
  import opened Queue
  import opened Runs
  import opened Results
  import opened Decisions
  import opened DeviceSide
  import opened Session

  /** Everything published has been answered and collected, and both sides have decided about all of it. */
  ghost predicate CaughtUp(l: Layout, eventIdx: bool, w: World, n: nat) {
    && Good(l, w)
    && |w.log.published| == |w.log.completed| == |w.log.collected| == n
    && w.log.kickAt == w.log.notifyAt == n && |w.drv.free| == l.queueSize
    && (eventIdx ==> l.Valid() && RingsIn(w.mem, l) && View(w.mem, l).availEvent == Wrap(n))
  }

  /** The driver is `i` two-buffer requests into the burst it started after `n`. */
  ghost predicate InBurst(l: Layout, eventIdx: bool, w: World, n: nat, i: nat) {
    && Good(l, w)
    && |w.log.published| == w.log.kickAt == n + i
    && |w.log.completed| == |w.log.collected| == w.log.notifyAt == n
    && |w.drv.free| == l.queueSize - 2 * i
    && l.Valid() && RingsIn(w.mem, l) && View(w.mem, l).usedEvent == Wrap(n)
    && (eventIdx ==> View(w.mem, l).availEvent == Wrap(n))
  }

  lemma BurstStart(l: Layout, eventIdx: bool, w: World, n: nat)
    requires CaughtUp(l, eventIdx, w, n)
    ensures InBurst(l, eventIdx, Step(l, eventIdx, w, Arm), n, 0)
  {
    hide Good, View, Put, Wrap;
    GoodCounters(l, w);
    StepKeeps(l, eventIdx, w, Arm);
    EventsKept(l, eventIdx, w, Arm);
    GoodCounters(l, Step(l, eventIdx, w, Arm));
  }

  /** Of the kick decisions in a burst only the first is positive with EVENT_IDX, and all are without. */
  lemma BurstStep(l: Layout, eventIdx: bool, w: World, n: nat, i: nat, buffers: seq<Buffer>)
    requires InBurst(l, eventIdx, w, n, i) && Honest(l, Submit(buffers)) && |buffers| == 2 && 2 * i + 2 <= l.queueSize
    ensures var w1 := Step(l, eventIdx, w, Submit(buffers));
      && Good(l, w1) && l.Valid() && RingsIn(w1.mem, l)
      && KickDecision(l, eventIdx, w1) == (!eventIdx || i == 0)
      && InBurst(l, eventIdx, Step(l, eventIdx, w1, Kick), n, i + 1)
  {
    hide Good, View, SubmitMem, Wrap, WellOrdered, AvoidRings, NeedEvent, Taken;
    GoodCounters(l, w);
    StepKeeps(l, eventIdx, w, Submit(buffers));
    EventsKept(l, eventIdx, w, Submit(buffers));
    var w1 := Step(l, eventIdx, w, Submit(buffers));
    GoodCounters(l, w1);
    StepKeeps(l, eventIdx, w1, Kick);
    EventsKept(l, eventIdx, w1, Kick);
    GoodCounters(l, Step(l, eventIdx, w1, Kick));
    SizeBounds(l);
    FiresUnlessPassed(n, n + i, n + i + 1);
  }

  /** The device's single decision about the burst is positive. */
  lemma BurstAnswered(l: Layout, eventIdx: bool, w: World, n: nat, i: nat, work: D.Work)
    requires InBurst(l, eventIdx, w, n, i) && 0 < i <= l.queueSize
    ensures var w1 := Step(l, eventIdx, w, Process(work));
      && Good(l, w1) && l.Valid() && RingsIn(w1.mem, l)
      && |w1.log.completed| == |w1.log.published| == n + i && |w1.log.collected| == n && w1.log.kickAt == n + i
      && InterruptDecision(l, eventIdx, w1)
  {
    hide Good, View, Wrap, NeedEvent, ProcessWorld;
    GoodCounters(l, w);
    StepKeeps(l, eventIdx, w, Process(work));
    EventsKept(l, eventIdx, w, Process(work));
    var w1 := Step(l, eventIdx, w, Process(work));
    PassAnswersAll(l, w, work);
    GoodCounters(l, w1);
    SizeBounds(l);
    FiresUnlessPassed(n, n, n + i);
  }

  lemma PassAnswersAll(l: Layout, w: World, work: D.Work)
    requires Good(l, w)
    ensures var w' := ProcessWorld(l, w, work);
      |w'.log.completed| == |w.log.published| && w'.log.published == w.log.published
      && w'.log.collected == w.log.collected
  {
    ProcessKeeps(l, w, work);
    hide Inv, WholePass;
  }

  lemma BurstEnd(l: Layout, eventIdx: bool, w: World, n: nat)
    requires Good(l, w) && |w.log.completed| == |w.log.published| == w.log.kickAt == n
    ensures Good(l, Step(l, eventIdx, w, Notify))
    ensures Good(l, Step(l, eventIdx, Step(l, eventIdx, w, Notify), Enable))
    ensures CaughtUp(l, eventIdx,
              Step(l, eventIdx, Step(l, eventIdx, Step(l, eventIdx, w, Notify), Enable), CollectUsed), n)
  {
    hide Good, View, Wrap, Rearmed, Collect;
    StepKeeps(l, eventIdx, w, Notify);
    var w1 := Step(l, eventIdx, w, Notify);
    StepKeeps(l, eventIdx, w1, Enable);
    EventsKept(l, eventIdx, w1, Enable);
    var w2 := Step(l, eventIdx, w1, Enable);
    StepKeeps(l, eventIdx, w2, CollectUsed);
    EventsKept(l, eventIdx, w2, CollectUsed);
    CollectStep(l, w2);
    var w3 := Step(l, eventIdx, w2, CollectUsed);
    GoodCounters(l, w1);
    GoodCounters(l, w3);
    CaughtUpFree(l, w3);
  }

  // ---------------------------------------------------------------- the loop

  /** One burst of `n` requests: the driver arms, submits and decides per request; the device drains, decides
      and re-arms; the driver collects. */
  method Burst(s: Session, buffers: seq<Buffer>, n: nat, ghost done: nat) returns (kicks: nat, interrupts: nat)
    requires s.Valid() && CaughtUp(s.layout, s.eventIdx, s.world, done)
    requires Honest(s.layout, Submit(buffers)) && |buffers| == 2 && 0 < n && 2 * n <= s.layout.queueSize
    modifies s, s.driver, s.device, s.mem.buf
    ensures s.Valid() && CaughtUp(s.layout, s.eventIdx, s.world, done + n)
    ensures kicks == (if s.eventIdx then 1 else n) && interrupts == 1
  {
    hide Good, View, Step, InBurst, CaughtUp, KickDecision, InterruptDecision, Honest, Layout.Valid, ArenaStart,
      Pointer, AllAnswered, Independent, Counted;
    kicks, interrupts := 0, 0;
    BurstStart(s.layout, s.eventIdx, s.world, done);
    var armed := s.ArmUsedEvent();
    for i := 0 to n
      invariant s.Valid() && InBurst(s.layout, s.eventIdx, s.world, done, i)
      invariant kicks == if s.eventIdx then Min(i, 1) else i
    {
      BurstStep(s.layout, s.eventIdx, s.world, done, i, buffers);
      var head := s.Submit(buffers);
      var kick := s.NeedsKick();
      if kick.value {
        kicks := kicks + 1;
      }
    }
    var work := (requests: seq<seq<byte>>) => [121 as byte];
    BurstAnswered(s.layout, s.eventIdx, s.world, done, n, work);
    var stats := s.Process(work);
    BurstEnd(s.layout, s.eventIdx, s.world, done + n);
    var interrupt := s.NeedsNotification();
    if interrupt.value {
      interrupts := 1;
    }
    var more := s.EnableNotification();
    var collected := s.CollectUsed();
  }

  lemma RoomForTwo(l: Layout, len: u64)
    requires ArenaStart(l) + 16 <= len <= LAST_END
    ensures Pointer(ArenaStart(l), len, []) == ArenaStart(l)
    ensures var payload := Bump(ArenaStart(l), len, 1);
      payload.Some? && payload.value.0 + 1 <= len && Bump(payload.value.1, len, 8).Some?
      && l.End() <= payload.value.0 && l.End() <= Bump(payload.value.1, len, 8).value.0
  {
    hide AlignUp, NextMultiple;
    RoundsUp(ArenaStart(l) + 1);
  }

  /** A fresh queue, and the two buffers that every request of the benchmark reuses. */
  method Prepare(layout: Layout, len: u64, eventIdx: bool) returns (s: Session, buffers: seq<Buffer>)
    requires layout.Valid() && ArenaStart(layout) + 16 <= len <= LAST_END
    ensures fresh(s) && fresh(s.driver) && fresh(s.device) && fresh(s.mem.buf)
    ensures s.Valid() && s.layout == layout && s.eventIdx == eventIdx && CaughtUp(layout, eventIdx, s.world, 0)
    ensures |buffers| == 2 && Honest(layout, Submit(buffers))
  {
    hide Good, View, Step, CaughtUp, NextMultiple, Bump, Pointer, Layout.Valid, NewWorld;
    RoomForTwo(layout, len);
    s := new Session(layout, len, eventIdx);
    NewIsCaughtUp(layout, eventIdx, s.world);
    ghost var w := s.world;
    var payload := s.Alloc([120]);
    WriteKeepsCaughtUp(layout, eventIdx, w, payload.value, [120]);
    var reply := s.AllocUninit(8);
    buffers := [Buffer(payload.value, 1, false), Buffer(reply.value, 8, true)];
  }

  /** `total` requests in bursts of at most `batch`. With EVENT_IDX there is exactly one kick and one interrupt
      per burst; without it one kick per request and one interrupt per burst. The counts hold for any total,
      so also far beyond the range of the 16-bit counters. */
  method BenchNotification(layout: Layout, len: u64, eventIdx: bool, total: nat, batch: nat)
    returns (kicks: nat, interrupts: nat)
    requires layout.Valid() && ArenaStart(layout) + 16 <= len <= LAST_END
    requires 0 < batch && 2 * batch <= layout.queueSize
    ensures kicks == if eventIdx then CeilDiv(total, batch) else total
    ensures interrupts == CeilDiv(total, batch)
  {
    hide Good, View, Step, CaughtUp, Honest, Layout.Valid, CeilDiv;
    var s, buffers := Prepare(layout, len, eventIdx);
    kicks, interrupts := 0, 0;
    var submitted := 0;
    while submitted < total
      invariant s.Valid() && s.layout == layout && s.eventIdx == eventIdx
      invariant fresh(s) && fresh(s.driver) && fresh(s.device) && fresh(s.mem.buf)
      invariant CaughtUp(layout, eventIdx, s.world, submitted)
      invariant submitted <= total && submitted == Min(interrupts * batch, total)
      invariant interrupts > 0 ==> (interrupts - 1) * batch < total
      invariant kicks == if eventIdx then interrupts else submitted
    {
      var n := Min(batch, total - submitted);
      var k, i := Burst(s, buffers, n, submitted);
      kicks := kicks + k;
      assert (interrupts + 1) * batch == interrupts * batch + batch;
      interrupts := interrupts + i;
      submitted := submitted + n;
    }
    CeilDivIs(total, batch, interrupts);
  }

  function Sum(sizes: seq<nat>): nat {
    if sizes == [] then 0 else Sum(sizes[..|sizes| - 1]) + sizes[|sizes| - 1]
  }

  /** The same for bursts of any sizes that fit the queue, in any order. */
  method BenchBursts(layout: Layout, len: u64, eventIdx: bool, sizes: seq<nat>) returns (kicks: nat, interrupts: nat)
    requires layout.Valid() && ArenaStart(layout) + 16 <= len <= LAST_END
    requires forall i | 0 <= i < |sizes| :: 0 < sizes[i] && 2 * sizes[i] <= layout.queueSize
    ensures kicks == if eventIdx then |sizes| else Sum(sizes)
    ensures interrupts == |sizes|
  {
    hide Good, View, Step, CaughtUp, Honest, Layout.Valid;
    var s, buffers := Prepare(layout, len, eventIdx);
    kicks, interrupts := 0, 0;
    for b := 0 to |sizes|
      invariant s.Valid() && s.layout == layout && s.eventIdx == eventIdx
      invariant fresh(s) && fresh(s.driver) && fresh(s.device) && fresh(s.mem.buf)
      invariant CaughtUp(layout, eventIdx, s.world, Sum(sizes[..b]))
      invariant kicks == (if eventIdx then b else Sum(sizes[..b])) && interrupts == b
    {
      var k, i := Burst(s, buffers, sizes[b], Sum(sizes[..b]));
      kicks, interrupts := kicks + k, interrupts + i;
      assert sizes[..b + 1][..b] == sizes[..b];
    }
    assert sizes[..|sizes|] == sizes;
  }

  lemma WriteKeepsCaughtUp(l: Layout, eventIdx: bool, w: World, addr: u64, data: seq<byte>)
    requires CaughtUp(l, eventIdx, w, 0) && Honest(l, GuestWrite(addr, data))
    ensures CaughtUp(l, eventIdx, Step(l, eventIdx, w, GuestWrite(addr, data)), 0)
  {
    hide Good, View, Patch, Wrap;
    GoodCounters(l, w);
    StepKeeps(l, eventIdx, w, GuestWrite(addr, data));
    EventsKept(l, eventIdx, w, GuestWrite(addr, data));
  }

  lemma NewIsCaughtUp(l: Layout, eventIdx: bool, w: World)
    requires l.Valid() && RingsIn(w.mem, l) && (forall p | 0 <= p < |w.mem| :: w.mem[p] == 0)
    requires w == NewWorld(l, w.mem)
    ensures CaughtUp(l, eventIdx, w, 0)
  {
    hide Good, View;
    NewIsGood(l, w.mem);
  }
}
