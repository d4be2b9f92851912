/** Driver, device and bytes together refine a FIFO of chains and a FIFO of completions. */
module Queue {
  import opened Words
  import opened VirtqLayout
  import opened Rings
  import opened ChainWalk
  import opened Acceptance
  import opened DriverSpec
  import opened DriverFacts
  import D = DeviceSpec
  import opened DeviceFacts
  import opened RoundTrip

  /** A chain the driver has published: the descriptors it occupies and the buffers it describes. */
  datatype Chain = Chain(indices: seq<u16>, buffers: seq<Buffer>)

  /** What has been observed of a queue since it was created. */
  datatype Log = Log(
    published: seq<Chain>,            // by add_chain, in order
    popped: seq<u16>,                 // heads the device took
    completed: seq<(u16, u32)>,       // (head, len) pairs the device published
    collected: seq<(u16, u32)>,       // (head, len) pairs the driver took
    kickAt: nat,                      // publications up to the last kick decision
    notifyAt: nat)                    // completions up to the last interrupt decision

  datatype World = World(mem: seq<byte>, drv: DriverState, dev: D.DeviceState, log: Log)

  // ---------------------------------------------------------------- the invariant

  ghost predicate ChainOk(l: Layout, c: Chain) {
    && c.indices != [] && |c.indices| == |c.buffers| && Distinct(c.indices)
    && WellOrdered(c.buffers) && AvoidRings(l, c.buffers)
  }

  /** Device-writable buffers lie outside the rings. */
  ghost predicate AvoidRings(l: Layout, buffers: seq<Buffer>) {
    forall b | b in buffers && b.deviceWritable :: D.Avoids(l, (b.addr, b.len))
  }

  ghost predicate Counters(r: Rings, drv: DriverState, dev: D.DeviceState, log: Log) {
    && |log.collected| <= |log.completed| <= |log.popped| <= |log.published|
    && drv.availIdx == r.availIdx == Wrap(|log.published|)
    && dev.nextAvail == Wrap(|log.popped|)
    && dev.nextUsed == r.usedIdx == Wrap(|log.completed|)
    && drv.lastUsed == Wrap(|log.collected|)
    && log.kickAt <= |log.published| && drv.lastKick == Wrap(log.kickAt)
    && log.notifyAt <= |log.completed| && Wrap(dev.nextUsed - dev.numAdded) == Wrap(log.notifyAt)
  }

  /** First in, first out, in both directions. */
  ghost predicate Fifo(log: Log) {
    && |log.collected| <= |log.completed| <= |log.popped| <= |log.published|
    && (forall k | 0 <= k < |log.published| :: log.published[k].indices != [])
    && (forall k | 0 <= k < |log.popped| :: log.popped[k] == log.published[k].indices[0])
    && (forall k | 0 <= k < |log.completed| :: log.completed[k].0 == log.popped[k])
    && log.collected == log.completed[..|log.collected|]
  }

  /** The ring slots that are still to be read hold what was published. */
  ghost predicate Slots(qs: nat, r: Rings, log: Log)
    requires Fifo(log)
  {
    && |r.availRing| == |r.usedRing| == qs > 0
    && (forall k | |log.popped| <= k < |log.published| ::
          r.availRing[Slot(k, qs)] == log.published[k].indices[0])
    && (forall k | |log.collected| <= k < |log.completed| :: r.usedRing[Slot(k, qs)] == log.completed[k])
  }

  /** The chains from number `lo` on are exactly the driver's outstanding ones. */
  ghost predicate Owned(qs: nat, drv: DriverState, published: seq<Chain>, lo: nat) {
    && Partition(qs, drv.free, drv.outstanding)
    && (forall n | lo <= n < |published| :: Outstanding(drv, published[n]))
    && (forall h | h in drv.outstanding ::
          exists n :: lo <= n < |published| && published[n].indices != [] && published[n].indices[0] == h)
    && (forall a, b | lo <= a < b < |published| :: published[a].indices[0] != published[b].indices[0])
  }

  ghost predicate Outstanding(drv: DriverState, c: Chain) {
    c.indices != [] && c.indices[0] in drv.outstanding && drv.outstanding[c.indices[0]] == c.indices
  }

  /** Every chain not yet collected still stands in the descriptor table. */
  ghost predicate Written(l: Layout, r: Rings, published: seq<Chain>, lo: nat) {
    forall n | lo <= n < |published| ::
      ChainOk(l, published[n]) && Holds(r.table, published[n].indices, published[n].buffers)
  }

  ghost predicate Inv(l: Layout, w: World) {
    && l.Valid() && RingsIn(w.mem, l)
    && RingsInv(l, View(w.mem, l), w.drv, w.dev, w.log)
  }

  ghost predicate RingsInv(l: Layout, r: Rings, drv: DriverState, dev: D.DeviceState, log: Log) {
    && |r.table| == |r.availRing| == l.queueSize
    && Counters(r, drv, dev, log)
    && Fifo(log)
    && Slots(l.queueSize, r, log)
    && Owned(l.queueSize, drv, log.published, |log.collected|)
    && Written(l, r, log.published, |log.collected|)
  }

  // ---------------------------------------------------------------- how many chains are in flight

  ghost function Heads(published: seq<Chain>, lo: nat): (s: seq<u16>)
    requires lo <= |published| && forall n | lo <= n < |published| :: published[n].indices != []
    ensures |s| == |published| - lo
  {
    seq(|published| - lo, i requires 0 <= i < |published| - lo => published[lo + i].indices[0])
  }

  /** At most `qs` chains are published and not collected. */
  lemma InFlight(qs: nat, drv: DriverState, published: seq<Chain>, lo: nat)
    requires qs <= 32768 && lo <= |published| && Owned(qs, drv, published, lo)
    ensures |published| - lo <= qs
  {
    hide Partition;
    var heads := Heads(published, lo);
    forall x | x in heads ensures x < qs {
      var i :| 0 <= i < |heads| && heads[i] == x;
      assert Outstanding(drv, published[lo + i]);
      OutstandingInTable(qs, drv, x);
    }
    assert Distinct(heads) by {
      hide *;
      forall i, j | 0 <= i < j < |heads| ensures heads[i] != heads[j] {
        assert published[lo + i].indices[0] != published[lo + j].indices[0];
      }
    }
    Pigeonhole(heads, qs);
  }

  lemma OutstandingInTable(qs: nat, drv: DriverState, h: u16)
    requires Partition(qs, drv.free, drv.outstanding) && h in drv.outstanding
    ensures h < qs && forall x | x in drv.outstanding[h] :: x < qs && x !in drv.free
  {
    assert OwnedList(qs, drv.free, h, drv.outstanding[h]);
    assert h in drv.outstanding[h];
  }

  // ---------------------------------------------------------------- publishing

  lemma SubmitOwned(qs: nat, drv: DriverState, published: seq<Chain>, lo: nat, buffers: seq<Buffer>)
    requires Owned(qs, drv, published, lo) && lo <= |published|
    requires 0 < |buffers| <= |drv.free|
    ensures var c := Chain(Taken(drv.free, |buffers|), buffers);
      Owned(qs, Publish(drv, |buffers|), published + [c], lo)
  {
    var n := |buffers|;
    var c := Chain(Taken(drv.free, n), buffers);
    var drv', published' := Publish(drv, n), published + [c];
    PublishKeeps(qs, drv, n);
    hide Partition, Taken;
    forall k | lo <= k < |published'| ensures Outstanding(drv', published'[k]) {
      if k < |published| {
        assert Outstanding(drv, published[k]);
      }
    }
    forall h | h in drv'.outstanding
      ensures exists k :: lo <= k < |published'| && published'[k].indices != [] && published'[k].indices[0] == h
    {
      if h == c.indices[0] {
        assert published'[|published|] == c;
      } else {
        var k :| lo <= k < |published| && published[k].indices != [] && published[k].indices[0] == h;
        assert published'[k] == published[k];
      }
    }
    forall a, b | lo <= a < b < |published'| ensures published'[a].indices[0] != published'[b].indices[0] {
      assert Outstanding(drv, published[a]);
    }
  }

  /** The descriptors a new chain takes are none of those an outstanding chain occupies. */
  lemma SubmitWritten(l: Layout, t: seq<Descriptor>, t': seq<Descriptor>, drv: DriverState,
                      published: seq<Chain>, k: nat, buffers: seq<Buffer>)
    requires Partition(l.queueSize, drv.free, drv.outstanding) && k < |published|
    requires |t| == l.queueSize && 0 < |buffers| <= |drv.free|
    requires Outstanding(drv, published[k]) && Holds(t, published[k].indices, published[k].buffers)
    requires ChainWritten(t, t', Taken(drv.free, |buffers|), buffers, |buffers|)
    ensures Holds(t', published[k].indices, published[k].buffers)
  {
    var c, taken := published[k], Taken(drv.free, |buffers|);
    OutstandingInTable(l.queueSize, drv, c.indices[0]);
    hide Partition, DescFor;
    forall i | 0 <= i < |c.indices| ensures c.indices[i] !in taken {
      assert c.indices[i] in c.indices;
      assert forall x | x in taken :: x in drv.free;
    }
  }

  lemma SubmitSlots(qs: nat, r: Rings, r': Rings, log: Log, c: Chain)
    requires Fifo(log) && Slots(qs, r, log) && QueueSize(qs) && c.indices != []
    requires |log.published| + 1 - |log.collected| <= qs
    requires r'.usedRing == r.usedRing
    requires r'.availRing == r.availRing[Slot(|log.published|, qs) := c.indices[0]]
    ensures Fifo(log.(published := log.published + [c])) && Slots(qs, r', log.(published := log.published + [c]))
  {
    hide QueueSize;
    forall k | |log.popped| <= k < |log.published| ensures Slot(k, qs) != Slot(|log.published|, qs) {
      SlotsDistinct(k, |log.published|, qs);
    }
    hide Slot;
  }

  lemma SubmitTable(l: Layout, r: Rings, r': Rings, drv: DriverState, published: seq<Chain>, lo: nat,
                    buffers: seq<Buffer>)
    requires |r.table| == l.queueSize && Written(l, r, published, lo) && Owned(l.queueSize, drv, published, lo)
    requires |buffers| <= |drv.free| && WellOrdered(buffers) && AvoidRings(l, buffers)
    requires ChainWritten(r.table, r'.table, Taken(drv.free, |buffers|), buffers, |buffers|)
    ensures Written(l, r', published + [Chain(Taken(drv.free, |buffers|), buffers)], lo)
    ensures |r'.table| == |r.table|
  {
    var c := Chain(Taken(drv.free, |buffers|), buffers);
    TakenSplits(drv.free, |buffers|);
    hide Partition, Taken, DescFor, WellOrdered, AvoidRings, Distinct;
    forall k | lo <= k < |published| ensures Holds(r'.table, published[k].indices, published[k].buffers) {
      assert Outstanding(drv, published[k]) && ChainOk(l, published[k]);
      SubmitWritten(l, r.table, r'.table, drv, published, k, buffers);
    }
    assert ChainOk(l, c) && Holds(r'.table, c.indices, c.buffers);
  }

  lemma SubmitKeeps(l: Layout, r: Rings, r': Rings, drv: DriverState, dev: D.DeviceState, log: Log,
                    buffers: seq<Buffer>)
    requires l.Valid() && RingsInv(l, r, drv, dev, log)
    requires |buffers| <= |drv.free| && WellOrdered(buffers) && AvoidRings(l, buffers)
    requires var taken := Taken(drv.free, |buffers|);
      && ChainWritten(r.table, r'.table, taken, buffers, |buffers|)
      && r' == r.(table := r'.table, availRing := r'.availRing, availIdx := Wrap(drv.availIdx + 1))
      && r'.availRing == r.availRing[Slot(drv.availIdx, l.queueSize) := taken[0]]
    ensures RingsInv(l, r', Publish(drv, |buffers|), dev,
                     log.(published := log.published + [Chain(Taken(drv.free, |buffers|), buffers)]))
  {
    assert buffers != [];
    hide Slots, Fifo, PowerOfTwo, Taken, Written, AvoidRings, WellOrdered, Slot, Wrap, Partition, ChainWritten, Owned,
      Counters;
    var c := Chain(Taken(drv.free, |buffers|), buffers);
    CountersBound(r, drv, dev, log);
    SubmitOwned(l.queueSize, drv, log.published, |log.collected|, buffers);
    SubmitRings(l, r, r', drv, log, c);
    SubmitTable(l, r, r', drv, log.published, |log.collected|, buffers);
    SubmitCounters(r, r', drv, Publish(drv, |buffers|), dev, log, c);
  }

  lemma SubmitRings(l: Layout, r: Rings, r': Rings, drv: DriverState, log: Log, c: Chain)
    requires l.Valid() && Fifo(log) && Slots(l.queueSize, r, log) && |c.indices| == |c.buffers|
    requires 0 < |c.buffers| <= |drv.free| && c.indices == Taken(drv.free, |c.buffers|)
    requires drv.availIdx == Wrap(|log.published|) && |log.collected| <= |log.published|
    requires Owned(l.queueSize, Publish(drv, |c.buffers|), log.published + [c], |log.collected|)
    requires r'.usedRing == r.usedRing && |r.availRing| == l.queueSize
    requires r'.availRing == r.availRing[Slot(drv.availIdx, l.queueSize) := c.indices[0]]
    ensures var log' := log.(published := log.published + [c]); Fifo(log') && Slots(l.queueSize, r', log')
  {
    hide Slots, Fifo, PowerOfTwo, Taken, Slot, Wrap, Owned;
    InFlight(l.queueSize, Publish(drv, |c.buffers|), log.published + [c], |log.collected|);
    WrapKeepsSlot(|log.published|, l.queueSize);
    SubmitSlots(l.queueSize, r, r', log, c);
  }

  lemma CountersBound(r: Rings, drv: DriverState, dev: D.DeviceState, log: Log)
    requires Counters(r, drv, dev, log)
    ensures |log.collected| <= |log.completed| <= |log.popped| <= |log.published|
    ensures drv.availIdx == Wrap(|log.published|)
  {
    hide Wrap;
  }

  lemma SubmitCounters(r: Rings, r': Rings, drv: DriverState, drv': DriverState, dev: D.DeviceState, log: Log, c: Chain)
    requires Counters(r, drv, dev, log)
    requires r' == r.(table := r'.table, availRing := r'.availRing, availIdx := Wrap(drv.availIdx + 1))
    requires drv' == drv.(availIdx := Wrap(drv.availIdx + 1), free := drv'.free, outstanding := drv'.outstanding)
    ensures Counters(r', drv', dev, log.(published := log.published + [c]))
  {
    hide Wrap;
    WrapDistance(|log.published|, 1);
  }

  // ---------------------------------------------------------------- collecting

  lemma RetireOwned(qs: nat, drv: DriverState, published: seq<Chain>, lo: nat)
    requires Owned(qs, drv, published, lo) && lo < |published|
    ensures Owned(qs, Retire(drv, published[lo].indices[0]), published, lo + 1)
  {
    assert Outstanding(drv, published[lo]);
    var h := published[lo].indices[0];
    var drv' := Retire(drv, h);
    RetireKeeps(qs, drv, h);
    hide Partition;
    forall k | lo + 1 <= k < |published| ensures Outstanding(drv', published[k]) {
      assert Outstanding(drv, published[k]) && published[lo].indices[0] != published[k].indices[0];
    }
    forall x | x in drv'.outstanding
      ensures exists k :: lo + 1 <= k < |published| && published[k].indices != [] && published[k].indices[0] == x
    {
      var k :| lo <= k < |published| && published[k].indices != [] && published[k].indices[0] == x;
      assert k != lo;
    }
  }

  /** Collecting takes the oldest uncollected completions in order and frees exactly their chains. */
  lemma {:induction false} CollectInOrder(qs: nat, r: Rings, drv: DriverState, log: Log, i: nat)
    requires QueueSize(qs) && Fifo(log) && Slots(qs, r, log)
    requires Owned(qs, drv, log.published, |log.collected|) && drv.lastUsed == Wrap(|log.collected|)
    requires i <= |log.completed| - |log.collected|
    ensures var c, lo := Collect(r.usedRing, drv, i), |log.collected|;
      && c.out == log.completed[lo..lo + i]
      && c.driver == drv.(lastUsed := Wrap(lo + i), free := c.driver.free, outstanding := c.driver.outstanding)
      && Owned(qs, c.driver, log.published, lo + i)
  {
    hide Owned, Slot, QueueSize, Wrap, CollectOne;
    if i > 0 {
      hide Fifo;
      var lo := |log.collected|;
      CollectInOrder(qs, r, drv, log, i - 1);
      CollectNext(qs, r, log, Collect(r.usedRing, drv, i - 1), lo + i - 1);
    }
  }

  lemma CollectNext(qs: nat, r: Rings, log: Log, c: Collecting, k: nat)
    requires QueueSize(qs) && Fifo(log) && Slots(qs, r, log) && |log.collected| <= k < |log.completed|
    requires Owned(qs, c.driver, log.published, k) && c.driver.lastUsed == Wrap(k)
    ensures var c' := CollectOne(r.usedRing, c);
      && c'.out == c.out + [log.completed[k]]
      && c'.driver == c.driver.(lastUsed := Wrap(k + 1), free := c'.driver.free, outstanding := c'.driver.outstanding)
      && Owned(qs, c'.driver, log.published, k + 1)
  {
    hide Owned, Slot, QueueSize, Fifo, Wrap;
    CompletionAt(qs, r, log, k);
    WrapDistance(k, 1);
    RetireOwned(qs, c.driver, log.published, k);
  }

  lemma CompletionAt(qs: nat, r: Rings, log: Log, k: nat)
    requires QueueSize(qs) && Fifo(log) && Slots(qs, r, log)
    requires |log.collected| <= k < |log.completed|
    ensures k < |log.published| && log.published[k].indices != []
    ensures |r.usedRing| == qs && r.usedRing[Slot(Wrap(k), qs)] == log.completed[k]
    ensures log.completed[k].0 == log.published[k].indices[0] && Wrap(log.completed[k].0) == log.completed[k].0
  {
    WrapKeepsSlot(k, qs);
    assert r.usedRing[Slot(k, qs)] == log.completed[k];
  }

  /** Two counters less than 65536 apart show their distance. */
  lemma DistanceIs(a: nat, b: nat)
    requires b <= a < b + 0x1_0000
    ensures Wrap(Wrap(a) - Wrap(b)) == a - b
  {
    WrapDistance(a, b);
  }

  /** The driver's wrapped distance to the used index counts the uncollected completions. */
  lemma CollectRings(l: Layout, r: Rings, drv: DriverState, dev: D.DeviceState, log: Log)
    requires l.Valid() && RingsInv(l, r, drv, dev, log)
    ensures r.usedRing != []
    ensures var c := Collect(r.usedRing, drv, Wrap(r.usedIdx - drv.lastUsed));
      && log.collected + c.out == log.completed
      && RingsInv(l, r, c.driver, dev, log.(collected := log.collected + c.out))
  {
    var qs, lo, n := l.queueSize, |log.collected|, |log.completed| - |log.collected|;
    hide Owned, Slot, PowerOfTwo, ChainOk, Holds, Collect;
    InFlight(qs, drv, log.published, lo);
    DistanceIs(|log.completed|, lo);
    hide Wrap;
    CollectInOrder(qs, r, drv, log, n);
    FrontAndRest(log.completed, lo);
  }

  lemma FrontAndRest(s: seq<(u16, u32)>, lo: nat)
    requires lo <= |s|
    ensures s[..lo] + s[lo..lo + (|s| - lo)] == s && s[..|s|] == s
  {
  }

  // ---------------------------------------------------------------- processing

  lemma {:induction false} WritableIsBuffer(ds: seq<Descriptor>, b: (u64, u32))
    requires b in D.Writable(ds)
    ensures exists x :: x in BuffersOf(ds) && x.deviceWritable && (x.addr, x.len) == b
  {
    if ds[0].IsWriteOnly() && b == (ds[0].addr, ds[0].len) {
      assert BuffersOf(ds)[0] == BufferOf(ds[0]);
    } else {
      WritableIsBuffer(ds[1..], b);
      var x :| x in BuffersOf(ds[1..]) && x.deviceWritable && (x.addr, x.len) == b;
      assert BuffersOf(ds)[1..] == BuffersOf(ds[1..]);
    }
  }

  /** A chain of honest buffers makes the device write outside the rings only. */
  lemma HeldIsHarmless(l: Layout, t: seq<Descriptor>, c: Chain)
    requires |t| < 0x1_0000 && ChainOk(l, c) && Holds(t, c.indices, c.buffers)
    ensures D.HarmlessChain(l, OkTable(t), c.indices[0])
  {
    hide Holds, WalkChain, WellOrdered, Distinct;
    WalkHeld(t, c.indices, c.buffers);
    var w := WalkChain(OkTable(t), c.indices[0]);
    if w.error.None? {
      forall b | b in D.Writable(w.descs) ensures D.Avoids(l, b) {
        WritableIsBuffer(w.descs, b);
        hide D.Avoids;
      }
    }
  }

  /** The chains the device finds are the published ones it has not taken, in order, and all harmless. */
  lemma PendingChains(l: Layout, w: World)
    requires Inv(l, w)
    ensures var n := |w.log.published| - |w.log.popped|;
      && n <= l.queueSize && |w.log.published| - |w.log.collected| <= l.queueSize
      && D.Pending(w.mem, l, w.dev) == n
      && D.Harmless(w.mem, l, w.dev.nextAvail, n)
      && forall k | 0 <= k < n ::
           D.Head(w.mem, l, w.dev.nextAvail, k) == w.log.published[|w.log.popped| + k].indices[0]
  {
    hide View, TableOf, Owned, PowerOfTwo, ChainOk, Holds, D.HarmlessChain, Slot;
    var r, p, c := View(w.mem, l), |w.log.published|, |w.log.popped|;
    InFlight(l.queueSize, w.drv, w.log.published, |w.log.collected|);
    DistanceIs(p, c);
    TableOfView(w.mem, l);
    forall k | 0 <= k < p - c
      ensures D.Head(w.mem, l, w.dev.nextAvail, k) == w.log.published[c + k].indices[0]
      ensures D.HarmlessChain(l, TableOf(w.mem, l), D.Head(w.mem, l, w.dev.nextAvail, k))
    {
      WrapDistance(c, k);
      WrapKeepsSlot(c + k, l.queueSize);
      HeldIsHarmless(l, r.table, w.log.published[c + k]);
    }
  }

  /** One answer for every chain not yet popped, in order. */
  ghost predicate AnswersMatch(log: Log, answers: seq<(u16, u32)>)
    requires Fifo(log)
  {
    && |log.completed| == |log.popped| && |answers| == |log.published| - |log.popped|
    && forall k | 0 <= k < |answers| :: answers[k].0 == log.published[|log.popped| + k].indices[0]
  }

  /** The used ring holds the answers in the slots after the last completion, and elsewhere what it held. */
  ghost predicate UsedFilled(qs: nat, r: Rings, r': Rings, log: Log, answers: seq<(u16, u32)>)
    requires qs > 0
  {
    var u, p := |log.completed|, |log.completed| + |answers|;
    && |r.usedRing| == |r'.usedRing| == qs
    && (forall k | u <= k < p :: r'.usedRing[Slot(k, qs)] == answers[k - u])
    && (forall x: nat | x < qs && (forall k | u <= k < p :: x != Slot(k, qs)) :: r'.usedRing[x] == r.usedRing[x])
  }

  /** The counters after `n` more chains. */
  ghost predicate Advanced(r: Rings, r': Rings, dev: D.DeviceState, dev': D.DeviceState, n: nat) {
    && dev' == D.DeviceState(Wrap(dev.nextAvail + n), Wrap(dev.nextUsed + n), Wrap(dev.numAdded + n))
    && r' == r.(usedRing := r'.usedRing, usedIdx := if n > 0 then dev'.nextUsed else r.usedIdx)
  }

  lemma ProcessFifo(log: Log, answers: seq<(u16, u32)>)
    requires Fifo(log) && AnswersMatch(log, answers)
    ensures Fifo(Processed(log, answers))
  {
    var log', c := Processed(log, answers), |log.popped|;
    forall k | 0 <= k < |log'.popped|
      ensures log'.popped[k] == log.published[k].indices[0] && log'.completed[k].0 == log'.popped[k]
    {
      if k < c {
        assert log'.popped[k] == log.popped[k] && log'.completed[k] == log.completed[k];
      } else {
        assert log'.popped[k] == answers[k - c].0 && log'.completed[k] == answers[k - c];
      }
    }
    assert log.completed[..|log.collected|] == log'.completed[..|log.collected|];
  }

  /** Uncollected completions are out of reach of the next pass: their slots are none of those it fills. */
  lemma ProcessSlots(qs: nat, r: Rings, r': Rings, log: Log, answers: seq<(u16, u32)>)
    requires QueueSize(qs) && qs > 0 && Fifo(log) && Slots(qs, r, log) && AnswersMatch(log, answers)
    requires |log.published| - |log.collected| <= qs && Fifo(Processed(log, answers))
    requires UsedFilled(qs, r, r', log, answers) && |r'.availRing| == qs
    ensures Slots(qs, r', Processed(log, answers))
  {
    hide QueueSize, Fifo, Slot, Firsts, UsedFilled;
    assert |r'.usedRing| == qs by {
      UsedFilledSize(qs, r, r', log, answers);
    }
    var log' := Processed(log, answers);
    forall k | |log.collected| <= k < |log'.completed| ensures r'.usedRing[Slot(k, qs)] == log'.completed[k] {
      if k < |log.completed| {
        OutOfReach(qs, r, r', log, answers, k);
      } else {
        FilledAt(qs, r, r', log, answers, k);
      }
    }
    hide AnswersMatch;
  }

  lemma UsedFilledSize(qs: nat, r: Rings, r': Rings, log: Log, answers: seq<(u16, u32)>)
    requires qs > 0 && UsedFilled(qs, r, r', log, answers)
    ensures |r.usedRing| == |r'.usedRing| == qs
  {
    hide Slot;
  }

  lemma FilledAt(qs: nat, r: Rings, r': Rings, log: Log, answers: seq<(u16, u32)>, k: nat)
    requires qs > 0 && UsedFilled(qs, r, r', log, answers)
    requires |log.completed| <= k < |log.completed| + |answers|
    ensures |r'.usedRing| == qs && r'.usedRing[Slot(k, qs)] == answers[k - |log.completed|]
  {
    hide Slot;
  }

  lemma OutOfReach(qs: nat, r: Rings, r': Rings, log: Log, answers: seq<(u16, u32)>, k: nat)
    requires QueueSize(qs) && qs > 0 && UsedFilled(qs, r, r', log, answers)
    requires |log.collected| <= k < |log.completed| && |log.completed| + |answers| - |log.collected| <= qs
    ensures r'.usedRing[Slot(k, qs)] == r.usedRing[Slot(k, qs)]
  {
    hide QueueSize, Slot;
    forall j | |log.completed| <= j < |log.completed| + |answers| ensures Slot(k, qs) != Slot(j, qs) {
      SlotsDistinct(k, j, qs);
    }
  }

  /** The log after a pass that published `answers`. */
  function Processed(log: Log, answers: seq<(u16, u32)>): Log {
    log.(popped := log.popped + Firsts(answers), completed := log.completed + answers)
  }

  function Firsts(answers: seq<(u16, u32)>): (s: seq<u16>)
    ensures |s| == |answers| && forall k | 0 <= k < |s| :: s[k] == answers[k].0
  {
    seq(|answers|, k requires 0 <= k < |answers| => answers[k].0)
  }

  /** The state of the queue after a whole pass of the device. */
  function ProcessWorld(l: Layout, w: World, work: D.Work): World
    requires l.Valid() && RingsIn(w.mem, l)
  {
    var q := WholePass(l, w, work);
    World(q.mem, w.drv, q.dev, Processed(w.log, q.completed))
  }

  function WholePass(l: Layout, w: World, work: D.Work): D.Pass
    requires l.Valid() && RingsIn(w.mem, l)
  {
    D.Drain(l, D.StartPass(w.mem, w.dev), work, D.Pending(w.mem, l, w.dev))
  }

  lemma PassUsedRing(l: Layout, w: World, work: D.Work)
    requires Inv(l, w) && |w.log.completed| == |w.log.popped|
    ensures |WholePass(l, w, work).mem| == |w.mem|
    ensures var q := WholePass(l, w, work);
      UsedFilled(l.queueSize, View(w.mem, l), View(q.mem, l), w.log, q.completed)
  {
    hide RingsInv, View, D.Drain, D.HarmlessChain, UsedSlot;
    PendingChains(l, w);
    var pass := D.StartPass(w.mem, w.dev);
    var u, p, qs := |w.log.completed|, |w.log.published|, l.queueSize;
    InvCounters(l, w);
    DrainExact(l, pass, work, p - u);
    forall k | u <= k < p ensures Slot(k, qs) == UsedSlot(l, w.dev.nextUsed, k - u) {
      UsedSlotIs(l, u, k - u);
    }
    forall k | u <= k < p ensures View(D.Drain(l, pass, work, p - u).mem, l).usedRing[Slot(k, qs)]
      == D.Drain(l, pass, work, p - u).completed[k - u]
    {
      UsedRingAfterDrain(l, pass, work, p - u, k - u);
    }
    forall x: nat | x < qs && (forall k | u <= k < p :: x != Slot(k, qs))
      ensures View(D.Drain(l, pass, work, p - u).mem, l).usedRing[x] == View(w.mem, l).usedRing[x]
    {
      forall k | 0 <= k < p - u ensures x != UsedSlot(l, w.dev.nextUsed, k) {
        assert x != Slot(u + k, qs);
      }
      UsedRingElsewhere(l, pass, work, p - u, x);
    }
  }

  lemma InvCounters(l: Layout, w: World)
    requires Inv(l, w)
    ensures l.Valid() && RingsIn(w.mem, l) && Fifo(w.log)
    ensures |w.log.collected| <= |w.log.completed| <= |w.log.popped| <= |w.log.published|
    ensures w.dev.nextUsed == Wrap(|w.log.completed|)
    ensures forall k | |w.log.collected| <= k < |w.log.published| :: ChainOk(l, w.log.published[k])
  {
    hide View, ChainOk, Owned;
  }

  lemma UsedSlotIs(l: Layout, u: nat, k: nat)
    requires l.Valid()
    ensures UsedSlot(l, Wrap(u), k) == Slot(u + k, l.queueSize)
  {
    WrapDistance(u, k);
    WrapKeepsSlot(u + k, l.queueSize);
  }

  lemma PassAnswers(l: Layout, w: World, work: D.Work)
    requires Inv(l, w) && |w.log.completed| == |w.log.popped|
    ensures Fifo(w.log) && |WholePass(l, w, work).mem| == |w.mem|
    ensures AnswersMatch(w.log, WholePass(l, w, work).completed)
  {
    hide RingsInv, View, D.Drain, D.HarmlessChain, D.Head, Wrap, TableOf;
    PendingChains(l, w);
    InvCounters(l, w);
    var pass, n := D.StartPass(w.mem, w.dev), |w.log.published| - |w.log.popped|;
    var q := D.Drain(l, pass, work, n);
    DrainExact(l, pass, work, n);
    forall k | 0 <= k < n ensures q.completed[k].0 == w.log.published[|w.log.popped| + k].indices[0] {
      assert Answers(l, pass, q.completed, k);
    }
  }

  lemma PassAdvances(l: Layout, w: World, work: D.Work)
    requires Inv(l, w) && |w.log.completed| == |w.log.popped|
    ensures var q := WholePass(l, w, work);
      && |q.mem| == |w.mem|
      && Advanced(View(w.mem, l), View(q.mem, l), w.dev, q.dev, |w.log.published| - |w.log.popped|)
  {
    hide RingsInv, View, D.HarmlessChain, D.Head, Wrap, TableOf, D.ServeNext;
    PendingChains(l, w);
    InvCounters(l, w);
    DrainExact(l, D.StartPass(w.mem, w.dev), work, |w.log.published| - |w.log.popped|);
  }

  lemma WrapSame(a: u16, b: u16, n: nat)
    ensures Wrap(Wrap(a + n) - Wrap(b + n)) == Wrap(a - b)
  {
  }

  lemma ProcessCounters(r: Rings, r': Rings, drv: DriverState, dev: D.DeviceState, dev': D.DeviceState,
                        log: Log, answers: seq<(u16, u32)>)
    requires Counters(r, drv, dev, log) && Fifo(log) && AnswersMatch(log, answers)
    requires Advanced(r, r', dev, dev', |answers|)
    ensures Counters(r', drv, dev', Processed(log, answers))
  {
    hide Fifo;
    WrapDistance(|log.popped|, |answers|);
    WrapDistance(|log.completed|, |answers|);
    WrapSame(dev.nextUsed, dev.numAdded, |answers|);
    hide Wrap;
  }

  lemma ProcessRings(l: Layout, r: Rings, r': Rings, drv: DriverState, dev: D.DeviceState, dev': D.DeviceState,
                     log: Log, answers: seq<(u16, u32)>)
    requires l.Valid() && RingsInv(l, r, drv, dev, log) && |log.published| - |log.collected| <= l.queueSize
    requires Advanced(r, r', dev, dev', |answers|) && AnswersMatch(log, answers)
    requires l.queueSize > 0 && UsedFilled(l.queueSize, r, r', log, answers) && |r'.availRing| == l.queueSize
    ensures RingsInv(l, r', drv, dev', Processed(log, answers))
  {
    hide Owned, ChainOk, Holds, Counters, Slots, Fifo, AnswersMatch, UsedFilled, PowerOfTwo, Wrap;
    ProcessFifo(log, answers);
    ProcessSlots(l.queueSize, r, r', log, answers);
    ProcessCounters(r, r', drv, dev, dev', log, answers);
  }

  lemma InvBounds(l: Layout, w: World)
    requires Inv(l, w)
    ensures l.queueSize > 0 && |w.log.published| - |w.log.collected| <= l.queueSize
  {
    hide View, D.Harmless, D.Pending, RingsInv, D.Head;
    PendingChains(l, w);
  }

  /** A pass answers every published chain. */
  lemma ProcessKeeps(l: Layout, w: World, work: D.Work)
    requires Inv(l, w) && |w.log.completed| == |w.log.popped|
    ensures var w' := ProcessWorld(l, w, work);
      && Inv(l, w')
      && |w'.log.completed| == |w'.log.popped| == |w.log.published|
  {
    hide View, WholePass, UsedFilled, Advanced, D.Harmless, D.Pending, RingsInv, D.Head, Fifo;
    PassUsedRing(l, w, work);
    PassAnswers(l, w, work);
    PassAdvances(l, w, work);
    InvBounds(l, w);
    var q := WholePass(l, w, work);
    ProcessRings(l, View(w.mem, l), View(q.mem, l), w.drv, w.dev, q.dev, w.log, q.completed);
  }
}
