/** Store by store: while one side prepares an entry, the other side sees only what was published before; the
    index, stored last, is what makes the entry visible (toy-virtq-raw/src/driver.rs:99-161,
    device.rs:292-302). Under sequential consistency the other side may look between any two stores. */
module Ordering {
  import opened Words
  import opened Memory
  import opened VirtqLayout
  import opened Rings
  import opened Fields
  import opened ChainWalk
  import opened Acceptance
  import opened DriverSpec
  import opened DriverFacts
  import D = DeviceSpec
  import opened RoundTrip
  import opened Queue
  import opened Runs

  // ---------------------------------------------------------------- fields nobody is reading

  /** Nothing the other side may still read depends on the field: a descriptor that is free, a ring slot
      without a live entry, or a field that is only a hint. */
  ghost predicate Spare(qs: nat, drv: DriverState, log: Log, f: Field)
    requires qs > 0
  {
    match f
    case DescAddr(i) => i in drv.free
    case DescLen(i) => i in drv.free
    case DescFlags(i) => i in drv.free
    case DescNext(i) => i in drv.free
    case AvailSlot(i) => forall k: nat | |log.popped| <= k < |log.published| :: Slot(k, qs) != i
    case UsedId(i) => forall k: nat | |log.collected| <= k < |log.completed| :: Slot(k, qs) != i
    case UsedLen(i) => forall k: nat | |log.collected| <= k < |log.completed| :: Slot(k, qs) != i
    case AvailIdx => false
    case UsedIdx => false
    case _ => true
  }

  /** Outstanding chains do not feel a change of a free descriptor. */
  lemma SpareTable(l: Layout, r: Rings, r': Rings, drv: DriverState, dev: D.DeviceState, log: Log, i: nat)
    requires l.Valid() && RingsInv(l, r, drv, dev, log) && i in drv.free
    requires r' == r.(table := r'.table) && |r'.table| == |r.table|
    requires forall x | 0 <= x < |r.table| && x != i :: r'.table[x] == r.table[x]
    ensures RingsInv(l, r', drv, dev, log)
  {
    hide Counters, Fifo, Slots, Partition, PowerOfTwo, WellOrdered, AvoidRings, Distinct, DescFor;
    forall n | |log.collected| <= n < |log.published|
      ensures ChainOk(l, log.published[n]) && Holds(r'.table, log.published[n].indices, log.published[n].buffers)
    {
      var c := log.published[n];
      assert Outstanding(drv, c) && ChainOk(l, c) && Holds(r.table, c.indices, c.buffers);
      OutstandingInTable(l.queueSize, drv, c.indices[0]);
      assert forall k | 0 <= k < |c.indices| :: c.indices[k] in c.indices;
    }
    SlotsSame(l.queueSize, r, r', log);
    CountersSame(r, r', drv, dev, log);
  }

  lemma SlotsSame(qs: nat, r: Rings, r': Rings, log: Log)
    requires Fifo(log) && Slots(qs, r, log) && r'.availRing == r.availRing && r'.usedRing == r.usedRing
    ensures Slots(qs, r', log)
  {
    hide Slot, Fifo;
  }

  lemma CountersSame(r: Rings, r': Rings, drv: DriverState, dev: D.DeviceState, log: Log)
    requires Counters(r, drv, dev, log) && r'.availIdx == r.availIdx && r'.usedIdx == r.usedIdx
    ensures Counters(r', drv, dev, log)
  {
    hide Wrap;
  }

  lemma WrittenSame(l: Layout, r: Rings, r': Rings, published: seq<Chain>, lo: nat)
    requires Written(l, r, published, lo) && r'.table == r.table
    ensures Written(l, r', published, lo)
  {
    hide ChainOk, Holds;
  }

  lemma SpareAvail(l: Layout, r: Rings, r': Rings, drv: DriverState, dev: D.DeviceState, log: Log, i: nat)
    requires l.Valid() && RingsInv(l, r, drv, dev, log) && l.queueSize > 0 && Spare(l.queueSize, drv, log, AvailSlot(i))
    requires r' == r.(availRing := r'.availRing) && |r'.availRing| == |r.availRing|
    requires forall x | 0 <= x < |r.availRing| && x != i :: r'.availRing[x] == r.availRing[x]
    ensures RingsInv(l, r', drv, dev, log)
  {
    hide Owned, Fifo, Slot, PowerOfTwo, Counters, Written;
    CountersSame(r, r', drv, dev, log);
    WrittenSame(l, r, r', log.published, |log.collected|);
  }

  lemma SpareUsed(l: Layout, r: Rings, r': Rings, drv: DriverState, dev: D.DeviceState, log: Log, i: nat)
    requires l.Valid() && RingsInv(l, r, drv, dev, log) && l.queueSize > 0 && Spare(l.queueSize, drv, log, UsedId(i))
    requires r' == r.(usedRing := r'.usedRing) && |r'.usedRing| == |r.usedRing|
    requires forall x | 0 <= x < |r.usedRing| && x != i :: r'.usedRing[x] == r.usedRing[x]
    ensures RingsInv(l, r', drv, dev, log)
  {
    hide Owned, Fifo, Slot, PowerOfTwo, Counters, Written;
    CountersSame(r, r', drv, dev, log);
    WrittenSame(l, r, r', log.published, |log.collected|);
  }

  lemma SpareHint(l: Layout, r: Rings, r': Rings, drv: DriverState, dev: D.DeviceState, log: Log)
    requires l.Valid() && RingsInv(l, r, drv, dev, log)
    requires r'.table == r.table && r'.availRing == r.availRing && r'.usedRing == r.usedRing
    requires r'.availIdx == r.availIdx && r'.usedIdx == r.usedIdx
    ensures RingsInv(l, r', drv, dev, log)
  {
    hide Owned, Fifo, Slots, PowerOfTwo, Counters, Written;
    SlotsSame(l.queueSize, r, r', log);
    CountersSame(r, r', drv, dev, log);
    WrittenSame(l, r, r', log.published, |log.collected|);
  }

  lemma SpareSet(l: Layout, r: Rings, drv: DriverState, dev: D.DeviceState, log: Log, f: Field, v: nat)
    requires l.Valid() && RingsInv(l, r, drv, dev, log) && |r.usedRing| == l.queueSize && Storable(l, f, v)
    requires l.queueSize > 0 && Spare(l.queueSize, drv, log, f)
    ensures RingsInv(l, (Widths(); Set(r, f, v)), drv, dev, log)
  {
    hide RingsInv, PowerOfTwo, Slot;
    Widths();
    RingsSizes(l, r, drv, dev, log);
    var r' := Set(r, f, v);
    match f
    case DescAddr(i) => SpareTable(l, r, r', drv, dev, log, i);
    case DescLen(i) => SpareTable(l, r, r', drv, dev, log, i);
    case DescFlags(i) => SpareTable(l, r, r', drv, dev, log, i);
    case DescNext(i) => SpareTable(l, r, r', drv, dev, log, i);
    case AvailSlot(i) => SpareAvail(l, r, r', drv, dev, log, i);
    case UsedId(i) => SpareUsed(l, r, r', drv, dev, log, i);
    case UsedLen(i) => SpareUsed(l, r, r', drv, dev, log, i);
    case AvailIdx =>
    case UsedIdx =>
    case _ => SpareHint(l, r, r', drv, dev, log);
  }

  lemma RingsSizes(l: Layout, r: Rings, drv: DriverState, dev: D.DeviceState, log: Log)
    requires RingsInv(l, r, drv, dev, log)
    ensures |r.table| == |r.availRing| == l.queueSize
  {
    hide Owned, Fifo, Slots, Counters, Written;
  }

  /** Storing anything into spare fields keeps the invariant of the queue, store by store. */
  lemma SpareStore(l: Layout, w: World, f: Field, v: nat)
    requires Inv(l, w) && Storable(l, f, v) && l.queueSize > 0 && Spare(l.queueSize, w.drv, w.log, f)
    ensures Inv(l, w.(mem := Put(w.mem, l, f, v)))
  {
    hide View, Put, Set, Spare, RingsInv;
    Widths();
    ViewOfPut(w.mem, l, f, v);
    SpareSet(l, View(w.mem, l), w.drv, w.dev, w.log, f, v);
  }

  ghost predicate AllSpare(l: Layout, w: World, stores: seq<(Field, nat)>)
    requires l.Valid()
  {
    && l.queueSize > 0
    && forall i | 0 <= i < |stores| :: Storable(l, stores[i].0, stores[i].1)
         && Spare(l.queueSize, w.drv, w.log, stores[i].0)
  }

  lemma {:induction false} SpareStores(l: Layout, w: World, stores: seq<(Field, nat)>)
    requires Inv(l, w) && AllSpare(l, w, stores)
    ensures AllStorable(l, stores)
    ensures Inv(l, w.(mem := StoreAll(w.mem, l, stores).mem))
    decreases |stores|
  {
    hide RingsInv, View, Put, Spare;
    if stores == [] {
      StoreNone(w.mem, l);
    } else {
      var (f, v) := stores[0];
      assert Storable(l, stores[0].0, stores[0].1) && Spare(l.queueSize, w.drv, w.log, stores[0].0);
      SpareStore(l, w, f, v);
      SpareStores(l, w.(mem := Put(w.mem, l, f, v)), stores[1..]);
      assert stores == [(f, v)] + stores[1..];
      hide StoreAll;
      StoreAllPuts(w.mem, l, f, v, stores[1..]);
    }
  }

  // ---------------------------------------------------------------- add_chain, store by store

  /** Every store of `add_chain` before the last one: the descriptors in order, then the ring slot. */
  function PublishStores(l: Layout, drv: DriverState, buffers: seq<Buffer>): (s: seq<(Field, nat)>)
    requires l.Valid() && Partition(l.queueSize, drv.free, drv.outstanding) && 0 < |buffers| <= |drv.free|
    ensures AllStorable(l, s)
  {
    var taken := Taken(drv.free, |buffers|);
    PublishSafe(l.queueSize, drv, |buffers|);
    Widths();
    ChainStores(l, taken, buffers, |buffers|) + [(AvailSlot(Slot(drv.availIdx, l.queueSize)), taken[0])]
  }

  /** Those stores and then the index are what `add_chain` does. */
  lemma PublishStoresAre(l: Layout, m: seq<byte>, drv: DriverState, buffers: seq<Buffer>)
    requires l.Valid() && RingsIn(m, l) && Partition(l.queueSize, drv.free, drv.outstanding)
    requires 0 < |buffers| <= |drv.free|
    ensures SubmitMem(l, m, drv, buffers)
      == Put(StoreAll(m, l, PublishStores(l, drv, buffers)).mem, l, AvailIdx, Wrap(drv.availIdx + 1))
  {
    hide Put, StoreAll, PutChain, ChainStores, Slot, Wrap, Partition, Taken, AllStorable;
    Widths();
    var taken := Taken(drv.free, |buffers|);
    PublishSafe(l.queueSize, drv, |buffers|);
    var chain := ChainStores(l, taken, buffers, |buffers|);
    var slot: seq<(Field, nat)> := [(AvailSlot(Slot(drv.availIdx, l.queueSize)), taken[0])];
    OneStorable(l, AvailSlot(Slot(drv.availIdx, l.queueSize)), taken[0]);
    StoreAllJoin(m, l, chain, slot);
    ChainStoresPut(m, l, taken, buffers, |buffers|);
    StorePuts(PutChain(m, l, taken, buffers, |buffers|), l, AvailSlot(Slot(drv.availIdx, l.queueSize)), taken[0]);
  }

  lemma OneStorable(l: Layout, f: Field, v: nat)
    requires l.Valid() && Storable(l, f, v)
    ensures AllStorable(l, [(f, v)])
  {
  }

  lemma {:induction false} ChainStoresSpare(l: Layout, w: World, buffers: seq<Buffer>, n: nat)
    requires l.Valid() && l.queueSize > 0 && Partition(l.queueSize, w.drv.free, w.drv.outstanding)
    requires n <= |buffers| <= |w.drv.free|
    requires forall i | 0 <= i < |buffers| :: Taken(w.drv.free, |buffers|)[i] < l.queueSize
    ensures AllSpare(l, w, ChainStores(l, Taken(w.drv.free, |buffers|), buffers, n))
  {
    hide Partition, DescFor, Slot;
    if n > 0 {
      ChainStoresSpare(l, w, buffers, n - 1);
      var at := Taken(w.drv.free, |buffers|)[n - 1];
      assert at in w.drv.free;
      hide Taken;
      var d := DescFor(Taken(w.drv.free, |buffers|), buffers, n - 1);
      forall i | 0 <= i < 4
        ensures Storable(l, DescStores(l, at, d)[i].0, DescStores(l, at, d)[i].1)
          && Spare(l.queueSize, w.drv, w.log, DescStores(l, at, d)[i].0)
      {
        Widths();
      }
    }
  }

  /** A driver with a free descriptor has fewer chains in flight than the ring has slots. */
  lemma RoomInRing(l: Layout, w: World)
    requires Inv(l, w) && |w.drv.free| > 0
    ensures l.queueSize > 0 && |w.log.published| - |w.log.collected| < l.queueSize
  {
    hide View, Fifo, Slots, Written, Owned, Partition, PowerOfTwo;
    InvCounters(l, w);
    OwnedIn(l, w);
    var b := [Buffer(0, 0, false)];
    SubmitOwned(l.queueSize, w.drv, w.log.published, |w.log.collected|, b);
    var c := Chain(Taken(w.drv.free, 1), b);
    InFlight(l.queueSize, Publish(w.drv, 1), w.log.published + [c], |w.log.collected|);
  }

  lemma OwnedIn(l: Layout, w: World)
    requires Inv(l, w)
    ensures Owned(l.queueSize, w.drv, w.log.published, |w.log.collected|)
    ensures Partition(l.queueSize, w.drv.free, w.drv.outstanding)
    ensures w.drv.availIdx == Wrap(|w.log.published|) && w.dev.nextUsed == Wrap(|w.log.completed|)
  {
    hide View, Fifo, Slots, Written, Partition, Wrap;
  }

  /** The slot the next entry goes to holds no live entry. */
  lemma NextSlotSpare(from: nat, next: nat, at: u16, qs: nat)
    requires QueueSize(qs) && from <= next < from + qs && at == Wrap(next)
    ensures forall k: nat | from <= k < next :: Slot(k, qs) != Slot(at, qs)
  {
    hide QueueSize, Wrap;
    WrapKeepsSlot(next, qs);
    forall k: nat | from <= k < next ensures Slot(k, qs) != Slot(at, qs) {
      SlotsDistinct(k, next, qs);
    }
  }

  lemma PublishStoresSpare(l: Layout, w: World, buffers: seq<Buffer>)
    requires Inv(l, w) && Partition(l.queueSize, w.drv.free, w.drv.outstanding) && 0 < |buffers| <= |w.drv.free|
    ensures AllSpare(l, w, PublishStores(l, w.drv, buffers))
  {
    hide View, RingsInv, Partition, Slot, ChainStores, PowerOfTwo, Taken;
    RoomInRing(l, w);
    OwnedIn(l, w);
    InvCounters(l, w);
    PublishSafe(l.queueSize, w.drv, |buffers|);
    ChainStoresSpare(l, w, buffers, |buffers|);
    NextSlotSpare(|w.log.popped|, |w.log.published|, w.drv.availIdx, l.queueSize);
    var taken := Taken(w.drv.free, |buffers|);
    Widths();
    assert Storable(l, AvailSlot(Slot(w.drv.availIdx, l.queueSize)), taken[0]);
    assert Spare(l.queueSize, w.drv, w.log, AvailSlot(Slot(w.drv.availIdx, l.queueSize)));
  }

  /** The `k`-th waiting chain stands at its place in the avail ring, and reads back as it was built. */
  ghost predicate SeesChain(l: Layout, log: Log, dev: D.DeviceState, m: seq<byte>, k: nat)
    requires l.Valid() && RingsIn(m, l) && |log.popped| + k < |log.published|
  {
    var c := log.published[|log.popped| + k];
    c.indices != [] && D.Head(m, l, dev.nextAvail, k) == c.indices[0] && StillThere(l, m, c)
  }

  /** What the device sees of a queue: exactly the chains that are published and not taken, in order. */
  ghost predicate DeviceSees(l: Layout, log: Log, dev: D.DeviceState, m: seq<byte>)
    requires l.Valid() && RingsIn(m, l)
  {
    && |log.popped| <= |log.published|
    && D.Pending(m, l, dev) == |log.published| - |log.popped|
    && forall k | 0 <= k < |log.published| - |log.popped| :: SeesChain(l, log, dev, m, k)
  }

  lemma GoodIsSeen(l: Layout, w: World)
    requires Good(l, w)
    ensures l.Valid() && RingsIn(w.mem, l) && DeviceSees(l, w.log, w.dev, w.mem)
  {
    hide View, RingsInv, D.Pending, D.Head, D.Harmless, StillThere;
    InvCounters(l, w);
    PendingChains(l, w);
    forall k | 0 <= k < |w.log.published| - |w.log.popped| ensures SeesChain(l, w.log, w.dev, w.mem, k) {
      WalksBack(l, w, |w.log.popped| + k);
    }
  }

  /** After any number of the stores before the last one, a device that looks sees exactly the chains published
      before: the invariant of the queue holds for the region as it then is. */
  lemma HalfPublishedIsInvisible(l: Layout, w: World, buffers: seq<Buffer>, k: nat)
    requires Good(l, w) && 0 < |buffers| <= |w.drv.free|
    ensures l.Valid() && RingsIn(w.mem, l) && Partition(l.queueSize, w.drv.free, w.drv.outstanding)
    ensures k <= |PublishStores(l, w.drv, buffers)| ==>
      var stores := PublishStores(l, w.drv, buffers)[..k];
      && AllStorable(l, stores)
      && var m := StoreAll(w.mem, l, stores).mem;
         |m| == |w.mem| && Good(l, w.(mem := m)) && DeviceSees(l, w.log, w.dev, m)
  {
    hide RingsInv, View, PublishStores, StoreAll, Spare, DeviceSees, Storable;
    OwnedIn(l, w);
    PublishStoresSpare(l, w, buffers);
    if k <= |PublishStores(l, w.drv, buffers)| {
      var stores := PublishStores(l, w.drv, buffers)[..k];
      SpareStores(l, w, stores);
      GoodIsSeen(l, w.(mem := StoreAll(w.mem, l, stores).mem));
    }
  }

  /** The last store makes one chain more visible, whatever has been stored before it: an index stored earlier
      would show the device an entry that is not there yet. */
  lemma IndexShowsOneMore(l: Layout, w: World, m: seq<byte>)
    requires l.Valid() && RingsIn(m, l) && |w.log.popped| <= |w.log.published| < |w.log.popped| + 0xffff
    requires w.dev.nextAvail == Wrap(|w.log.popped|) && w.drv.availIdx == Wrap(|w.log.published|)
    ensures var m' := (Widths(); Put(m, l, AvailIdx, Wrap(w.drv.availIdx + 1)));
      D.Pending(m', l, w.dev) == |w.log.published| + 1 - |w.log.popped|
  {
    hide View, Put, Wrap;
    Widths();
    ViewOfPut(m, l, AvailIdx, Wrap(w.drv.availIdx + 1));
    WrapDistance(|w.log.published|, 1);
    DistanceIs(|w.log.published| + 1, |w.log.popped|);
  }

  // ---------------------------------------------------------------- add_used, store by store

  /** The stores of `add_used` before the last one. */
  function CompleteStores(l: Layout, dev: D.DeviceState, head: u16, len: u32): (s: seq<(Field, nat)>)
    requires l.Valid()
    ensures AllStorable(l, s)
  {
    Widths();
    [(UsedId(Slot(dev.nextUsed, l.queueSize)), head), (UsedLen(Slot(dev.nextUsed, l.queueSize)), len)]
  }

  /** Those stores and then the index are what `add_used` does. */
  lemma CompleteStoresAre(l: Layout, m: seq<byte>, dev: D.DeviceState, head: u16, len: u32)
    requires l.Valid() && RingsIn(m, l)
    ensures D.PutUsed(m, l, dev.nextUsed, head, len)
      == Put(StoreAll(m, l, CompleteStores(l, dev, head, len)).mem, l, UsedIdx, Wrap(dev.nextUsed + 1))
  {
    hide Put, StoreAll, Slot, Wrap;
    Widths();
    var slot := Slot(dev.nextUsed, l.queueSize);
    var rest: seq<(Field, nat)> := [(UsedLen(slot), len)];
    assert CompleteStores(l, dev, head, len) == [(UsedId(slot), head as nat)] + rest;
    StoreAllPuts(m, l, UsedId(slot), head, rest);
    StorePuts(Put(m, l, UsedId(slot), head), l, UsedLen(slot), len);
  }

  /** The queue once the device has taken its next chain. */
  function PopOne(l: Layout, w: World): World
    requires l.Valid() && RingsIn(w.mem, l)
  {
    w.(dev := w.dev.(nextAvail := Wrap(w.dev.nextAvail + 1)),
       log := w.log.(popped := w.log.popped + [D.Head(w.mem, l, w.dev.nextAvail, 0)]))
  }

  /** Taking a chain keeps the invariant, so it also holds while the device works on one. */
  lemma PopKeeps(l: Layout, w: World)
    requires Inv(l, w) && |w.log.popped| < |w.log.published|
    ensures l.Valid() && RingsIn(w.mem, l) && Inv(l, PopOne(l, w))
  {
    hide View, D.Pending, D.Harmless, D.Head, RingsInv, Wrap;
    PendingChains(l, w);
    InvCounters(l, w);
    var head, c := D.Head(w.mem, l, w.dev.nextAvail, 0), |w.log.popped|;
    assert head == w.log.published[c + 0].indices[0];
    PoppedRings(l, View(w.mem, l), w.drv, w.dev, w.log, head);
  }

  lemma PoppedRings(l: Layout, r: Rings, drv: DriverState, dev: D.DeviceState, log: Log, head: u16)
    requires l.Valid() && RingsInv(l, r, drv, dev, log)
    requires |log.popped| < |log.published| && head == log.published[|log.popped|].indices[0]
    ensures RingsInv(l, r, drv, dev.(nextAvail := Wrap(dev.nextAvail + 1)), log.(popped := log.popped + [head]))
  {
    hide Owned, Written, Slot, Layout.Valid;
    WrapDistance(|log.popped|, 1);
    PoppedFifo(log, head);
    hide Wrap, Fifo;
  }

  lemma PoppedFifo(log: Log, head: u16)
    requires Fifo(log) && |log.popped| < |log.published| && head == log.published[|log.popped|].indices[0]
    ensures Fifo(log.(popped := log.popped + [head]))
  {
  }

  /** What the driver sees: as many completions as are published and not collected, in order. */
  ghost predicate DriverSees(l: Layout, log: Log, drv: DriverState, m: seq<byte>)
    requires l.Valid() && RingsIn(m, l)
  {
    var v := View(m, l);
    log.collected + Collect(v.usedRing, drv, Wrap(v.usedIdx - drv.lastUsed)).out == log.completed
  }

  /** After any number of the stores before the last one, a driver that looks collects exactly the completions
      published before, even if the device has already taken the chain it is about to complete. */
  lemma HalfCompletedIsInvisible(l: Layout, w: World, head: u16, len: u32, k: nat)
    requires Inv(l, w) && |w.log.completed| < |w.log.published| && k <= 2
    ensures l.Valid() && RingsIn(w.mem, l)
    ensures var stores := CompleteStores(l, w.dev, head, len)[..k];
      && AllStorable(l, stores)
      && var m := StoreAll(w.mem, l, stores).mem;
         |m| == |w.mem| && Inv(l, w.(mem := m)) && DriverSees(l, w.log, w.drv, m)
  {
    hide RingsInv, View, StoreAll, Slot, Collect, PowerOfTwo;
    InvCounters(l, w);
    InvBounds(l, w);
    OwnedIn(l, w);
    NextSlotSpare(|w.log.collected|, |w.log.completed|, w.dev.nextUsed, l.queueSize);
    var stores := CompleteStores(l, w.dev, head, len)[..k];
    SpareStores(l, w, stores);
    InvIsCollected(l, w.(mem := StoreAll(w.mem, l, stores).mem));
  }

  lemma InvIsCollected(l: Layout, w: World)
    requires Inv(l, w)
    ensures l.Valid() && RingsIn(w.mem, l) && DriverSees(l, w.log, w.drv, w.mem)
  {
    hide RingsInv, View, Collect;
    InvCounters(l, w);
    CollectRings(l, View(w.mem, l), w.drv, w.dev, w.log);
  }

  /** The last store of `add_used` makes one completion more visible, whatever has been stored before it. */
  lemma UsedIndexShowsOneMore(l: Layout, w: World, m: seq<byte>)
    requires l.Valid() && RingsIn(m, l) && |w.log.collected| <= |w.log.completed| < |w.log.collected| + 0xffff
    requires w.drv.lastUsed == Wrap(|w.log.collected|) && w.dev.nextUsed == Wrap(|w.log.completed|)
    ensures var m' := (Widths(); Put(m, l, UsedIdx, Wrap(w.dev.nextUsed + 1)));
      Wrap(View(m', l).usedIdx - w.drv.lastUsed) == |w.log.completed| + 1 - |w.log.collected|
  {
    hide View, Put, Wrap;
    Widths();
    ViewOfPut(m, l, UsedIdx, Wrap(w.dev.nextUsed + 1));
    WrapDistance(|w.log.completed|, 1);
    DistanceIs(|w.log.completed| + 1, |w.log.collected|);
  }

  // ---------------------------------------------------------------- when a store is refused

  /** The bytes of the field are the same in both regions. */
  ghost predicate SameField(l: Layout, m: seq<byte>, m': seq<byte>, f: Field)
    requires l.Valid() && l.Has(f)
  {
    |m'| == |m| && forall p | l.At(f) <= p < l.At(f) + l.Width(f) && p < |m| :: m'[p] == m[p]
  }

  ghost predicate NoneInto(stores: seq<(Field, nat)>, f: Field) {
    forall i | 0 <= i < |stores| :: stores[i].0 != f
  }

  /** Stores into other fields leave a field alone, however far they get. */
  lemma {:induction false} StoresElsewhere(m: seq<byte>, l: Layout, stores: seq<(Field, nat)>, f: Field)
    requires l.Valid() && l.Has(f) && AllStorable(l, stores) && NoneInto(stores, f)
    ensures SameField(l, m, StoreAll(m, l, stores).mem, f)
    decreases |stores|
  {
    hide Layout.At, Layout.Width, Layout.Has, ToLE, Patch;
    if stores != [] {
      hide SameField;
      var (g, v) := stores[0];
      assert Storable(l, stores[0].0, stores[0].1) && g != f;
      FieldInside(l, g);
      if l.At(g) + l.Width(g) <= |m| {
        var m1 := Patch(m, l.At(g), ToLE(v, l.Width(g)));
        PatchElsewhere(m, l, g, ToLE(v, l.Width(g)), f);
        StoresElsewhere(m1, l, stores[1..], f);
        FieldStays(l, m, m1, StoreAll(m1, l, stores[1..]).mem, f);
      } else {
        Unchanged(l, m, f);
      }
    }
  }

  lemma Unchanged(l: Layout, m: seq<byte>, f: Field)
    requires l.Valid() && l.Has(f)
    ensures SameField(l, m, m, f)
  {
  }

  lemma PatchElsewhere(m: seq<byte>, l: Layout, g: Field, data: seq<byte>, f: Field)
    requires l.Valid() && l.Has(f) && l.Has(g) && f != g && |data| == l.Width(g) && l.At(g) + l.Width(g) <= |m|
    ensures SameField(l, m, Patch(m, l.At(g), data), f)
  {
    hide Layout.At, Layout.Width, Layout.Has;
    FieldsApart(l, f, g);
    Patched(m, l.At(g), data);
  }

  /** A single store changes nothing unless it is performed. */
  lemma OneStore(m: seq<byte>, l: Layout, f: Field, v: nat)
    requires l.Valid() && Storable(l, f, v)
    ensures var s := StoreAll(m, l, [(f, v)]); s.error.Some? ==> s.mem == m
  {
    hide Layout.At, Layout.Width, Layout.Has, ToLE;
    assert [(f, v)][1..] == [];
  }

  lemma {:induction false} ChainStoresElsewhere(l: Layout, indices: seq<u16>, buffers: seq<Buffer>, n: nat)
    requires l.Valid() && n <= |buffers| == |indices| && forall i | 0 <= i < |indices| :: indices[i] < l.queueSize
    ensures NoneInto(ChainStores(l, indices, buffers, n), AvailIdx)
  {
    hide DescFor;
    if n > 0 {
      ChainStoresElsewhere(l, indices, buffers, n - 1);
    }
  }

  /** Over any region, a chain that could not be stored entirely is not shown: the index is as it was. */
  lemma RefusedChainIsInvisible(l: Layout, m: seq<byte>, availIdx: u16, indices: seq<u16>, buffers: seq<Buffer>)
    requires l.Valid() && 0 < |buffers| == |indices| && forall i | 0 <= i < |indices| :: indices[i] < l.queueSize
    ensures var w := WriteAll(m, l, availIdx, indices, buffers);
      w.error.Some? ==> SameField(l, m, w.mem, AvailIdx)
  {
    hide ChainStores, StoreAll, Slot, Wrap, SameField, AllStorable, NoneInto;
    Widths();
    var chain, slot := ChainStores(l, indices, buffers, |buffers|), Slot(availIdx, l.queueSize);
    ChainStoresElsewhere(l, indices, buffers, |buffers|);
    StoresElsewhere(m, l, chain, AvailIdx);
    var m1 := StoreAll(m, l, chain).mem;
    OneElsewhere(l, m1, AvailSlot(slot), indices[0], AvailIdx);
    var m2 := StoreAll(m1, l, [(AvailSlot(slot), indices[0])]).mem;
    OneStore(m2, l, AvailIdx, Wrap(availIdx + 1));
    FieldStays(l, m, m1, m2, AvailIdx);
  }

  lemma OneElsewhere(l: Layout, m: seq<byte>, g: Field, v: nat, f: Field)
    requires l.Valid() && Storable(l, g, v) && l.Has(f) && g != f
    ensures AllStorable(l, [(g, v)]) && SameField(l, m, StoreAll(m, l, [(g, v)]).mem, f)
  {
    hide StoreAll, SameField;
    StoresElsewhere(m, l, [(g, v)], f);
  }

  lemma FieldStays(l: Layout, m: seq<byte>, m1: seq<byte>, m2: seq<byte>, f: Field)
    requires l.Valid() && l.Has(f)
    ensures SameField(l, m, m1, f) && SameField(l, m1, m2, f) ==> SameField(l, m, m2, f)
  {
    hide Layout.At, Layout.Width;
  }

  /** Nor is a completion, and the device then repeats its slot. */
  lemma RefusedCompletionIsInvisible(l: Layout, m: seq<byte>, dev: D.DeviceState, head: u16, len: u32)
    requires l.Valid()
    ensures var c, slot := D.Complete(m, l, dev, head, len), Slot(dev.nextUsed, l.queueSize);
      && (c.error.Some? ==> SameField(l, m, c.mem, UsedIdx))
      && (l.At(UsedLen(slot)) + 4 > |m| ==> c.error.Some? && c.dev == dev)
  {
    hide StoreAll, Slot, Wrap, SameField;
    Widths();
    var slot := Slot(dev.nextUsed, l.queueSize);
    var element: seq<(Field, nat)> := [(UsedId(slot), head), (UsedLen(slot), len)];
    StoresElsewhere(m, l, element, UsedIdx);
    if l.At(UsedLen(slot)) + 4 > |m| {
      ElementRefused(l, m, slot, head, len);
    }
    OneStore(StoreAll(m, l, element).mem, l, UsedIdx, Wrap(dev.nextUsed + 1));
  }

  lemma ElementRefused(l: Layout, m: seq<byte>, slot: nat, head: u16, len: u32)
    requires l.Valid() && slot < l.queueSize && l.At(UsedLen(slot)) + 4 > |m|
    ensures (Widths(); StoreAll(m, l, [(UsedId(slot), head), (UsedLen(slot), len)]).error.Some?)
  {
    Widths();
    var element: seq<(Field, nat)> := [(UsedId(slot), head), (UsedLen(slot), len)];
    assert element[1..] == [(UsedLen(slot), len as nat)];
    hide Layout.At, ToLE, PowerOfTwo;
  }
}
