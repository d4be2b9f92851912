/** A driver and a device over one region, as objects. Each call is one step of a run. */
module Session {
  import opened Words
  import opened Memory
  import opened VirtqLayout
  import opened Rings
  import opened DriverSpec
  import opened DriverFacts
  import opened Fields
  import opened Steadiness
  import opened Tally
  import D = DeviceSpec
  import opened DeviceSide
  import opened DriverSide
  import opened Queue
  import opened Runs
  import opened Results
  import opened Decisions
  import opened Notify
  import Arena

  /** The device finds exactly the chains that wait, and serving them leaves the rings alone. */
  lemma FindsWaiting(l: Layout, w: World)
    requires Good(l, w)
    ensures l.Valid() && RingsIn(w.mem, l)
    ensures D.Pending(w.mem, l, w.dev) == |w.log.published| - |w.log.popped|
    ensures D.Harmless(w.mem, l, w.dev.nextAvail, D.Pending(w.mem, l, w.dev))
  {
    hide View, D.Harmless, D.Pending, RingsInv;
    PendingChains(l, w);
  }

  /** The device sees those chains, and they keep off what it reads. */
  lemma WaitingIsSteady(l: Layout, w: World)
    requires Good(l, w)
    ensures l.Valid() && RingsIn(w.mem, l)
    ensures AvailableNow(w.mem, l, w.dev) == D.Pending(w.mem, l, w.dev)
    ensures D.Steady(w.mem, l, w.dev.nextAvail, AvailableNow(w.mem, l, w.dev))
  {
    hide View, D.Harmless, D.Pending, RingsInv, D.PendingIn, D.Steady;
    FindsWaiting(l, w);
    D.PendingShown(w.mem, l, w.dev);
    HarmlessIsSteady(w.mem, l, w.dev.nextAvail, D.Pending(w.mem, l, w.dev));
  }

  lemma ScalarsShown(m: seq<byte>, l: Layout)
    requires l.Valid() && RingsIn(m, l)
    ensures LoadShort(m, l, UsedIdx) == Ok(View(m, l).usedIdx)
    ensures LoadShort(m, l, UsedEvent) == Ok(View(m, l).usedEvent)
    ensures LoadShort(m, l, AvailEvent) == Ok(View(m, l).availEvent)
  {
    hide View, Num;
    ViewScalars(m, l);
  }

  /** What the driver will read off the used ring is the collect step. */
  lemma CollectShown(l: Layout, eventIdx: bool, w: World) returns (c: Collecting)
    requires Good(l, w)
    ensures l.Valid() && RingsIn(w.mem, l) && Good(l, Step(l, eventIdx, w, CollectUsed))
    ensures match LoadShort(w.mem, l, UsedIdx)
      case Err(_) => false
      case Ok(v) => CollectIn(w.mem, l, w.drv, Wrap(v - w.drv.lastUsed)) == Collected(c, None)
    ensures Step(l, eventIdx, w, CollectUsed)
      == w.(drv := c.driver, log := w.log.(collected := w.log.collected + c.out))
  {
    hide Good, View, Collect, CollectIn, LoadShort;
    GoodParts(l, w);
    StepKeeps(l, eventIdx, w, CollectUsed);
    ScalarsShown(w.mem, l);
    var n := Wrap(View(w.mem, l).usedIdx - w.drv.lastUsed);
    CollectInShows(w.mem, l, w.drv, n);
    c := Collect(View(w.mem, l).usedRing, w.drv, n);
  }

  /** What the device will read for its decision, and the state it leaves. */
  lemma NotifyShown(l: Layout, eventIdx: bool, w: World)
    requires Good(l, w)
    ensures l.Valid() && RingsIn(w.mem, l) && Good(l, Step(l, eventIdx, w, Notify))
    ensures Step(l, eventIdx, w, Notify)
      == w.(dev := w.dev.(numAdded := 0), log := w.log.(notifyAt := |w.log.completed|))
    ensures LoadShort(w.mem, l, UsedEvent).Ok?
    ensures var passed := NeedEvent(LoadShort(w.mem, l, UsedEvent).value, w.dev.nextUsed,
                                    Wrap(w.dev.nextUsed - w.dev.numAdded));
      InterruptDecision(l, eventIdx, w) == (!eventIdx || passed)
  {
    hide Good, View, LoadShort, Wrap, NeedEvent;
    GoodParts(l, w);
    StepKeeps(l, eventIdx, w, Notify);
    ScalarsShown(w.mem, l);
  }

  lemma NewParts(l: Layout, m: seq<byte>)
    requires l.Valid()
    ensures NewWorld(l, m).mem == m && NewWorld(l, m).drv == NewDriver(l.queueSize)
    ensures NewWorld(l, m).dev == D.DeviceState(0, 0, 0)
  {
  }

  lemma ArenaIsGuests(l: Layout, at: u64, data: seq<byte>)
    requires l.Valid() && Arena.ArenaStart(l) <= at
    ensures Honest(l, GuestWrite(at, data))
  {
  }

  class Session {
    const layout: Layout
    const eventIdx: bool
    const mem: SharedMem
    const driver: Driver
    const device: Device
    ghost var world: World
    ghost var lens: seq<u32>              // the allocation requests so far

    ghost predicate Valid()
      reads this, driver, device, mem.buf
    {
      && mem.Valid() && driver.layout == device.layout == layout && driver.eventIdx == device.eventIdx == eventIdx
      && mem.buf[..] == world.mem && driver.State() == world.drv && device.State() == world.dev
      && Good(layout, world)
      && Arena.ArenaStart(layout) < 0x1_0000_0000_0000_0000 && driver.arenaEnd == mem.buf.Length <= Arena.LAST_END
      && driver.arena == Arena.Pointer(Arena.ArenaStart(layout), mem.buf.Length, lens)
    }

    /** The buffers the arena has handed out, in order. */
    ghost function Handed(): D.Buffers
      requires Arena.ArenaStart(layout) < 0x1_0000_0000_0000_0000 && mem.buf.Length <= Arena.LAST_END
      reads this
    {
      Arena.Allocations(Arena.ArenaStart(layout), mem.buf.Length, lens)
    }

    /** A fresh queue over a zeroed region of `len` bytes that holds its rings. */
    constructor (layout: Layout, len: u64, eventIdx: bool)
      requires layout.Valid() && layout.End() <= len <= Arena.LAST_END
      requires Arena.ArenaStart(layout) < 0x1_0000_0000_0000_0000
      ensures Valid() && fresh(mem) && fresh(mem.buf) && fresh(driver) && fresh(device)
      ensures this.layout == layout && this.eventIdx == eventIdx && mem.buf.Length == len
      ensures (forall p | 0 <= p < len :: world.mem[p] == 0) && |world.mem| == len
      ensures world == NewWorld(layout, world.mem)
      ensures lens == []
    {
      hide Good, NewWorld, Layout.Valid, Arena.NextMultiple, Arena.ArenaStart, Arena.Pointer;
      Arena.StartsThere(layout, len);
      var m := new SharedMem(len);
      this.layout, this.eventIdx, mem := layout, eventIdx, m;
      driver := new Driver(layout, len, eventIdx);
      device := new Device(layout, eventIdx);
      world, lens := NewWorld(layout, m.buf[..]), [];
      new;
      NewIsGood(layout, mem.buf[..]);
      NewParts(layout, mem.buf[..]);
    }

    lemma Parts()
      requires Valid()
      ensures layout.Valid() && RingsIn(world.mem, layout) && driver.Valid()
    {
      hide View, Partition;
      OwnedParts(layout, world);
    }

    /** Allocating and filling a buffer is the guest writing its own memory. The length is cut to 32 bits before
        room is reserved; longer data is stored all the same, if the region accepts it. */
    method Alloc(data: seq<byte>) returns (addr: Option<u64>)
      requires Valid() && |data| < 0x1_0000_0000_0000_0000
      modifies this, driver`arena, mem.buf
      ensures Valid() && lens == old(lens) + [|data| % 0x1_0000_0000]
      ensures match Arena.Bump(old(driver.arena), mem.buf.Length, |data| % 0x1_0000_0000)
        case None =>
          addr == None && driver.arena == old(driver.arena) && Handed() == old(Handed()) && world == old(world)
        case Some((a, next)) =>
          && driver.arena == next && Handed() == old(Handed()) + [(a, |data| % 0x1_0000_0000)]
          && (addr == if a + |data| <= |old(world.mem)| then Some(a) else None)
          && (addr == None ==> world == old(world))
          && (addr == Some(a) ==>
                && Honest(layout, GuestWrite(a, data))
                && world == Step(layout, eventIdx, old(world), GuestWrite(a, data)))
    {
      hide Good, Layout.Valid, Patch, View, AlignUp, Arena.ArenaStart, Honest, Arena.Allocations, Arena.Pointer;
      Parts();
      ghost var at, len := driver.arena, |data| % 0x1_0000_0000;
      Arena.OneMoreRequest(Arena.ArenaStart(layout), mem.buf.Length, lens, len);
      Arena.PointerAscends(Arena.ArenaStart(layout), mem.buf.Length, lens);
      addr := driver.Alloc(mem, data);
      lens := lens + [len];
      if addr.Some? {
        ArenaIsGuests(layout, at, data);
        StepKeeps(layout, eventIdx, world, GuestWrite(at, data));
        world := Step(layout, eventIdx, world, GuestWrite(at, data));
      }
    }

    method AllocUninit(len: u32) returns (addr: Option<u64>)
      requires Valid()
      modifies this`lens, driver`arena
      ensures Valid() && lens == old(lens) + [len]
      ensures match Arena.Bump(old(driver.arena), mem.buf.Length, len)
        case None => addr == None && driver.arena == old(driver.arena) && Handed() == old(Handed())
        case Some((a, next)) => addr == Some(a) && driver.arena == next && Handed() == old(Handed()) + [(a, len)]
    {
      hide Good, Layout.Valid, AlignUp, Arena.ArenaStart, Arena.Allocations, Arena.Pointer;
      Parts();
      Arena.OneMoreRequest(Arena.ArenaStart(layout), mem.buf.Length, lens, len);
      addr := driver.AllocUninit(len);
      lens := lens + [len];
    }

    method Submit(buffers: seq<Buffer>) returns (r: Result<u16, DriverError>)
      requires Valid() && Honest(layout, Runs.Submit(buffers))
      modifies this, driver, mem.buf
      ensures Valid() && world == Step(layout, eventIdx, old(world), Runs.Submit(buffers))
      ensures lens == old(lens)
      ensures r == if |buffers| <= |old(world.drv.free)| then Ok(Taken(old(world.drv.free), |buffers|)[0])
                   else Err(OutOfDescriptors)
    {
      hide Good, Partition, PutChain, PutAvail, Layout.Valid, WriteAll, Arena.Pointer, Arena.ArenaStart;
      Parts();
      StepKeeps(layout, eventIdx, world, Runs.Submit(buffers));
      if |buffers| <= |world.drv.free| {
        PublishSafe(layout.queueSize, world.drv, |buffers|);
        WriteAllPuts(world.mem, layout, world.drv.availIdx, Taken(world.drv.free, |buffers|), buffers);
      }
      r := driver.AddChain(mem, buffers);
      world := Step(layout, eventIdx, world, Runs.Submit(buffers));
    }

    method Process(work: D.Work) returns (r: Result<D.ProcessStats, MemError>)
      requires Valid()
      modifies this, device, mem.buf
      ensures Valid() && world == Step(layout, eventIdx, old(world), Runs.Process(work))
      ensures old(layout.Valid() && RingsIn(world.mem, layout)) && r == Ok(WholePass(layout, old(world), work).stats)
      ensures r.Ok? && Counted(old(world), world, r.value)
      ensures |old(world.log.popped)| <= |old(world.log.published)|
      ensures Independent(layout, Waiting(old(world.log))) ==> AllAnswered(layout, old(world), world, work)
      ensures lens == old(lens)
    {
      hide Good, D.Drain, Layout.Valid, D.Steady, D.Pending, D.PendingIn, D.EndsAfter, AvailableNow, Independent,
        AllAnswered, Counted, Tallies, Arena.Pointer, Arena.ArenaStart;
      Parts();
      StepKeeps(layout, eventIdx, world, Runs.Process(work));
      PassCounted(layout, world, work);
      WaitingIsSteady(layout, world);
      GoodParts(layout, world);
      if Independent(layout, Waiting(world.log)) {
        RequestsAndResponses(layout, world, work);
      }
      r := device.Process(mem, work);
      world := Step(layout, eventIdx, world, Runs.Process(work));
    }

    method CollectUsed() returns (r: Result<seq<(u16, u32)>, MemError>)
      requires Valid()
      modifies this, driver
      ensures Valid() && world == Step(layout, eventIdx, old(world), Runs.CollectUsed)
      ensures lens == old(lens)
      ensures r.Ok? && world.log.collected == old(world.log.collected) + r.value
    {
      hide Good, View, Step, Layout.Valid, CollectIn, LoadShort, Arena.Pointer, Arena.ArenaStart;
      Parts();
      ghost var c := CollectShown(layout, eventIdx, world);
      r := driver.CollectUsed(mem);
      world := Step(layout, eventIdx, world, Runs.CollectUsed);
    }

    method NeedsKick() returns (r: Result<bool, MemError>)
      requires Valid()
      modifies this, driver
      ensures Valid() && world == Step(layout, eventIdx, old(world), Runs.Kick)
      ensures lens == old(lens)
      ensures old(layout.Valid() && RingsIn(world.mem, layout)) && r == Ok(old(KickDecision(layout, eventIdx, world)))
    {
      hide Good, View, Layout.Valid, LoadShort, Arena.Pointer, Arena.ArenaStart;
      Parts();
      StepKeeps(layout, eventIdx, world, Runs.Kick);
      ScalarsShown(world.mem, layout);
      r := driver.NeedsKick(mem);
      world := Step(layout, eventIdx, world, Runs.Kick);
    }

    method NeedsNotification() returns (r: Result<bool, MemError>)
      requires Valid()
      modifies this, device
      ensures Valid() && world == Step(layout, eventIdx, old(world), Runs.Notify) && lens == old(lens)
      ensures old(layout.Valid() && RingsIn(world.mem, layout))
        && r == Ok(old(InterruptDecision(layout, eventIdx, world)))
    {
      hide Good, View, Layout.Valid, Step, InterruptDecision, Wrap, NeedEvent, LoadShort, Arena.Pointer,
        Arena.ArenaStart;
      Parts();
      NotifyShown(layout, eventIdx, world);
      r := device.NeedsNotification(mem);
      world := Step(layout, eventIdx, world, Runs.Notify);
    }

    method ArmUsedEvent() returns (r: Result<(), MemError>)
      requires Valid()
      modifies this, mem.buf
      ensures Valid() && world == Step(layout, eventIdx, old(world), Runs.Arm) && r.Ok? && lens == old(lens)
    {
      hide Good, Put, Layout.Valid, StoreAll, Arena.Pointer, Arena.ArenaStart;
      Parts();
      StepKeeps(layout, eventIdx, world, Runs.Arm);
      Widths();
      StorePuts(world.mem, layout, UsedEvent, world.drv.lastUsed);
      r := driver.ArmUsedEvent(mem);
      world := Step(layout, eventIdx, world, Runs.Arm);
    }

    /** The answer says whether chains wait. */
    method EnableNotification() returns (r: Result<bool, MemError>)
      requires Valid()
      modifies this, mem.buf
      ensures Valid() && world == Step(layout, eventIdx, old(world), Runs.Enable) && lens == old(lens)
      ensures r == Ok(|world.log.popped| < |world.log.published|)
    {
      hide Good, Rearmed, Rearm, Layout.Valid, D.Harmless, D.Pending, D.PendingIn, Arena.Pointer, Arena.ArenaStart;
      Parts();
      StepKeeps(layout, eventIdx, world, Runs.Enable);
      FindsWaiting(layout, world);
      RearmStores(world.mem, layout, world.dev, eventIdx);
      r := device.EnableNotification(mem);
      world := Step(layout, eventIdx, world, Runs.Enable);
    }
  }
}
