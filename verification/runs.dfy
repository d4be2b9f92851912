/** Runs of driver and device over one region, of any length and through any number of counter wraps. */
module Runs {
  import opened Words
  import opened Memory
  import opened VirtqLayout
  import opened Rings
  import opened Acceptance
  import opened DriverSpec
  import opened DriverFacts
  import D = DeviceSpec
  import opened DeviceSide
  import opened ChainWalk
  import opened RoundTrip
  import opened Queue

  /** What may happen to a queue: every operation of its two halves, and the guest using its own memory. */
  datatype Op =
    | Submit(buffers: seq<Buffer>)        // add_chain
    | Process(work: D.Work)               // process
    | CollectUsed                         // collect_used
    | Kick                                // needs_kick
    | Notify                              // needs_notification
    | Arm                                 // arm_used_event
    | Enable                              // enable_notification
    | GuestWrite(addr: u64, data: seq<byte>)

  /** What an honest guest respects: it lets the device write, and itself writes, outside the rings only. */
  ghost predicate Honest(l: Layout, op: Op) {
    match op
    case Submit(buffers) => WellOrdered(buffers) && AvoidRings(l, buffers)
    case GuestWrite(addr, data) => |data| == 0 || addr + |data| <= l.descTable || l.End() <= addr
    case _ => true
  }

  /** Between operations the device holds no chain it has popped and not completed. */
  ghost predicate Good(l: Layout, w: World) {
    Inv(l, w) && |w.log.completed| == |w.log.popped|
  }

  // ---------------------------------------------------------------- the operations

  function SubmitWorld(l: Layout, w: World, buffers: seq<Buffer>): World
    requires l.Valid() && RingsIn(w.mem, l) && Partition(l.queueSize, w.drv.free, w.drv.outstanding)
    requires buffers != []
  {
    if |buffers| > |w.drv.free| then w
    else
      World(SubmitMem(l, w.mem, w.drv, buffers), Publish(w.drv, |buffers|), w.dev,
            w.log.(published := w.log.published + [Chain(Taken(w.drv.free, |buffers|), buffers)]))
  }

  function CollectWorld(l: Layout, w: World): World
    requires l.Valid() && RingsIn(w.mem, l)
  {
    var r := View(w.mem, l);
    var c := Collect(r.usedRing, w.drv, Wrap(r.usedIdx - w.drv.lastUsed));
    w.(drv := c.driver, log := w.log.(collected := w.log.collected + c.out))
  }

  ghost function Step(l: Layout, eventIdx: bool, w: World, op: Op): World
    requires Good(l, w) && Honest(l, op)
  {
    match op
    case Submit(buffers) => SubmitWorld(l, w, buffers)
    case Process(work) => ProcessWorld(l, w, work)
    case CollectUsed => CollectWorld(l, w)
    case Kick => w.(drv := w.drv.(lastKick := w.drv.availIdx), log := w.log.(kickAt := |w.log.published|))
    case Notify => w.(dev := w.dev.(numAdded := 0), log := w.log.(notifyAt := |w.log.completed|))
    case Arm => w.(mem := Put(w.mem, l, UsedEvent, w.drv.lastUsed))
    case Enable => w.(mem := Rearmed(w.mem, l, w.dev, eventIdx))
    case GuestWrite(addr, data) =>
      if addr + |data| <= |w.mem| then w.(mem := Patch(w.mem, addr, data)) else w
  }

  // ---------------------------------------------------------------- every operation keeps the invariant

  /** What publishing a chain does to the rings. */
  lemma SubmitView(l: Layout, m: seq<byte>, drv: DriverState, buffers: seq<Buffer>)
    requires l.Valid() && RingsIn(m, l) && Partition(l.queueSize, drv.free, drv.outstanding)
    requires 0 < |buffers| <= |drv.free|
    ensures var taken := Taken(drv.free, |buffers|);
      var r, r' := View(m, l), View(SubmitMem(l, m, drv, buffers), l);
      && ChainWritten(r.table, r'.table, taken, buffers, |buffers|)
      && r' == r.(table := r'.table, availRing := r'.availRing, availIdx := Wrap(drv.availIdx + 1))
      && r'.availRing == r.availRing[Slot(drv.availIdx, l.queueSize) := taken[0]]
    ensures SameOutside(m, SubmitMem(l, m, drv, buffers), l.descTable, l.End())
  {
    hide View, PutChain, PutAvail, Slot, Taken, Partition, ChainWritten, PowerOfTwo, Distinct, Wrap;
    PublishSafe(l.queueSize, drv, |buffers|);
    PartitionDistinct(l.queueSize, drv);
    TakenSplits(drv.free, |buffers|);
    var taken := Taken(drv.free, |buffers|);
    ViewOfPutChain(m, l, taken, buffers, |buffers|);
    ViewOfPutAvail(PutChain(m, l, taken, buffers, |buffers|), l, drv.availIdx, taken[0]);
  }

  lemma PartitionDistinct(qs: nat, drv: DriverState)
    requires Partition(qs, drv.free, drv.outstanding)
    ensures Distinct(drv.free)
  {
  }

  lemma SubmitStep(l: Layout, w: World, buffers: seq<Buffer>)
    requires Good(l, w) && WellOrdered(buffers) && AvoidRings(l, buffers)
    ensures Good(l, SubmitWorld(l, w, buffers))
  {
    hide View, AvoidRings, Slot, Taken, Counters, Fifo, Slots, Written, Partition, ChainWritten, PowerOfTwo, SubmitMem;
    if |buffers| <= |w.drv.free| {
      SubmitView(l, w.mem, w.drv, buffers);
      hide Owned, RingsInv, WellOrdered;
      SubmitKeeps(l, View(w.mem, l), View(SubmitMem(l, w.mem, w.drv, buffers), l), w.drv, w.dev, w.log, buffers);
    }
  }

  lemma CollectStep(l: Layout, w: World)
    requires Good(l, w)
    ensures Good(l, CollectWorld(l, w))
    ensures CollectWorld(l, w).log.collected == w.log.completed
  {
    hide View, RingsInv, Collect;
    CollectRings(l, View(w.mem, l), w.drv, w.dev, w.log);
  }

  /** A region whose rings differ at most in the event fields and flags keeps the invariant. */
  lemma HintsDoNotMatter(l: Layout, w: World, m: seq<byte>)
    requires Good(l, w) && |m| == |w.mem|
    requires var r := View(w.mem, l); var r' := View(m, l);
      r' == r.(usedEvent := r'.usedEvent, availEvent := r'.availEvent, usedFlags := r'.usedFlags)
    ensures Good(l, w.(mem := m))
  {
    hide View, Owned, Fifo, PowerOfTwo, Wrap, Slot, ChainOk, Holds;
  }

  lemma GuestStep(l: Layout, w: World, addr: u64, data: seq<byte>)
    requires Good(l, w) && Honest(l, GuestWrite(addr, data)) && addr + |data| <= |w.mem|
    ensures Good(l, w.(mem := Patch(w.mem, addr, data)))
  {
    hide View, RingsInv;
    ViewKept(w.mem, Patch(w.mem, addr, data), l);
  }

  lemma DecisionStep(l: Layout, w: World)
    requires Good(l, w)
    ensures Good(l, w.(drv := w.drv.(lastKick := w.drv.availIdx), log := w.log.(kickAt := |w.log.published|)))
    ensures Good(l, w.(dev := w.dev.(numAdded := 0), log := w.log.(notifyAt := |w.log.completed|)))
  {
    hide View, PowerOfTwo, Slot, Partition, ChainOk, Holds;
  }

  lemma StepKeeps(l: Layout, eventIdx: bool, w: World, op: Op)
    requires Good(l, w) && Honest(l, op)
    ensures Good(l, Step(l, eventIdx, w, op))
  {
    hide Good, View;
    match op
    case Submit(buffers) => SubmitStep(l, w, buffers);
    case Process(work) => ProcessStep(l, w, work);
    case CollectUsed => CollectStep(l, w);
    case Kick => DecisionStep(l, w);
    case Notify => DecisionStep(l, w);
    case Arm => ArmStep(l, w);
    case Enable => EnableStep(l, eventIdx, w);
    case GuestWrite(addr, data) => if addr + |data| <= |w.mem| { GuestStep(l, w, addr, data); }
  }

  lemma ProcessStep(l: Layout, w: World, work: D.Work)
    requires Good(l, w)
    ensures Good(l, ProcessWorld(l, w, work))
  {
    hide Inv, ProcessWorld;
    ProcessKeeps(l, w, work);
  }

  lemma ArmStep(l: Layout, w: World)
    requires Good(l, w)
    ensures Good(l, w.(mem := Put(w.mem, l, UsedEvent, w.drv.lastUsed)))
  {
    hide View, RingsInv, Put;
    Widths();
    ViewOfPut(w.mem, l, UsedEvent, w.drv.lastUsed);
    HintsDoNotMatter(l, w, Put(w.mem, l, UsedEvent, w.drv.lastUsed));
  }

  lemma EnableStep(l: Layout, eventIdx: bool, w: World)
    requires Good(l, w)
    ensures Good(l, w.(mem := Rearmed(w.mem, l, w.dev, eventIdx)))
  {
    hide View, RingsInv, Rearmed;
    RearmedView(w.mem, l, w.dev, eventIdx);
    HintsDoNotMatter(l, w, Rearmed(w.mem, l, w.dev, eventIdx));
  }

  // ---------------------------------------------------------------- runs

  /** The queue after a run. Every run keeps the invariant. */
  ghost function Run(l: Layout, eventIdx: bool, w: World, ops: seq<Op>): (w': World)
    requires Good(l, w) && forall op | op in ops :: Honest(l, op)
    ensures Good(l, w')
  {
    if ops == [] then w
    else
      var w1 := Run(l, eventIdx, w, ops[..|ops| - 1]);
      StepKeeps(l, eventIdx, w1, ops[|ops| - 1]);
      Step(l, eventIdx, w1, ops[|ops| - 1])
  }

  /** A queue as it is created, over zeroed rings. */
  function NewWorld(l: Layout, mem: seq<byte>): World
    requires l.Valid()
  {
    World(mem, NewDriver(l.queueSize), D.DeviceState(0, 0, 0), Log([], [], [], [], 0, 0))
  }

  lemma {:induction false} ZeroWord(s: seq<byte>)
    requires forall i | 0 <= i < |s| :: s[i] == 0
    ensures FromLE(s) == 0
  {
    if s != [] {
      ZeroWord(s[1..]);
    }
  }

  lemma ZeroRings(l: Layout, mem: seq<byte>)
    requires l.Valid() && RingsIn(mem, l) && forall p | 0 <= p < |mem| :: mem[p] == 0
    ensures var r := View(mem, l);
      r.availIdx == r.usedIdx == r.usedEvent == r.availEvent == 0
  {
    hide Layout.At, Layout.Width, View, FromLE;
    forall f: Field | l.Has(f) ensures Num(mem, l, f) == 0 {
      FieldInside(l, f);
      ZeroWord(mem[l.At(f)..l.At(f) + l.Width(f)]);
    }
    hide Num;
    ViewScalars(mem, l);
  }

  lemma NewIsGood(l: Layout, mem: seq<byte>)
    requires l.Valid() && RingsIn(mem, l) && forall p | 0 <= p < |mem| :: mem[p] == 0
    ensures Good(l, NewWorld(l, mem))
    ensures View(mem, l).usedEvent == 0 && View(mem, l).availEvent == 0
  {
    hide View, Partition, Slot;
    ZeroRings(l, mem);
    DescriptorsConserved(l.queueSize, []);
  }

  /** Walking the chain from its head yields the buffers it was published with; if those total 2^32 bytes or more,
      the walk is refused where they do. */
  ghost predicate StillThere(l: Layout, m: seq<byte>, c: Chain)
    requires l.Valid() && RingsIn(m, l) && c.indices != []
  {
    var walked := WalkChain(TableOf(m, l), c.indices[0]);
    && BuffersOf(walked.descs) == c.buffers[..Walkable(c.buffers)]
    && if TotalLength(c.buffers) < 0x1_0000_0000 then walked.error == None && BuffersOf(walked.descs) == c.buffers
       else walked.error == Some(TooManyBytes)
  }

  lemma WalksBack(l: Layout, w: World, k: nat)
    requires Good(l, w) && |w.log.collected| <= k < |w.log.published|
    ensures w.log.published[k].indices != [] && StillThere(l, w.mem, w.log.published[k])
  {
    hide View, Counters, Owned, Slots, Fifo, PowerOfTwo, AvoidRings, WellOrdered, Distinct, TableOf, WalkChain, Holds;
    TableOfView(w.mem, l);
    var c := w.log.published[k];
    assert ChainOk(l, c);
    WalkHeld(View(w.mem, l).table, c.indices, c.buffers);
    WalkableIs(c.buffers);
    assert c.buffers[..|c.buffers|] == c.buffers;
  }
}
