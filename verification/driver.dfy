/** The driver half of the queue (toy-virtq-raw/src/driver.rs). */
module DriverSide {
  import opened Words
  import opened Memory
  import opened VirtqLayout
  import opened Rings
  import opened DriverSpec
  import opened DriverFacts
  import opened Notify
  import opened Fields
  import opened Arena

  datatype DriverError = OutOfDescriptors | Mem(error: MemError)

  class Driver {
    const layout: Layout
    const eventIdx: bool
    const arenaEnd: u64
    var availIdx: u16
    var lastKick: u16
    var lastUsed: u16
    var freeDescs: seq<u16>
    var outstanding: map<u16, seq<u16>>
    var arena: u64

    ghost function State(): DriverState
      reads this
    {
      DriverState(availIdx, lastKick, lastUsed, freeDescs, outstanding)
    }

    ghost predicate Valid()
      reads this
    {
      layout.Valid() && Partition(layout.queueSize, freeDescs, outstanding)
    }

    constructor (layout: Layout, arenaEnd: u64, eventIdx: bool)
      requires layout.Valid()
      ensures this.layout == layout && this.arenaEnd == arenaEnd && this.eventIdx == eventIdx
      ensures Valid() && State() == NewDriver(layout.queueSize) && arena == NextMultiple(layout.End(), 16)
      ensures availIdx == lastKick == lastUsed == 0 && |freeDescs| == layout.queueSize && outstanding == map[]
      ensures forall i | 0 <= i < |freeDescs| :: freeDescs[i] == |freeDescs| - 1 - i
      ensures layout.End() <= 0xffff_ffff_ffff_fff0 ==>
        arena % 16 == 0 && layout.End() <= arena < layout.End() + 16
    {
      this.layout, this.arenaEnd, this.eventIdx := layout, arenaEnd, eventIdx;
      availIdx, lastKick, lastUsed := 0, 0, 0;
      freeDescs := NewDriver(layout.queueSize).free;
      outstanding := map[];
      arena := NextMultiple(layout.End(), 16);
      new;
      DescriptorsConserved(layout.queueSize, []);
    }

    /** Hands out the next `len` bytes of the arena, if there are that many. */
    method AllocUninit(len: u32) returns (addr: Option<u64>)
      modifies this`arena
      ensures match Bump(old(arena), arenaEnd, len)
        case None => addr == None && arena == old(arena)
        case Some((a, next)) => addr == Some(a) && arena == next
      ensures addr.Some? <==> old(arena) + len <= arenaEnd
      ensures addr.Some? ==> addr.value == old(arena) && Follows(arena, old(arena) + len)
    {
      BumpExactly(arena, arenaEnd, len);
      var end := CheckedAdd(arena, len);
      if end.None? || end.value > arenaEnd {
        return None;
      }
      addr := Some(arena);
      arena := NextMultiple(end.value, 8);
    }

    /** Allocates and fills. The length is cut to 32 bits before it is allocated, so data of 2^32 bytes or
        more is stored past the end of what was reserved for it. */
    method Alloc(mem: SharedMem, data: seq<byte>) returns (addr: Option<u64>)
      requires mem.Valid() && |data| < 0x1_0000_0000_0000_0000
      modifies this`arena, mem.buf
      ensures match Bump(old(arena), arenaEnd, |data| % 0x1_0000_0000)
        case None => addr == None && arena == old(arena) && mem.buf[..] == old(mem.buf[..])
        case Some((a, next)) =>
          && arena == next
          && (addr == Some(a) <==> a + |data| <= mem.buf.Length)
          && (addr == Some(a) ==> mem.buf[..] == Patch(old(mem.buf[..]), a, data))
          && (addr != Some(a) ==> addr == None && mem.buf[..] == old(mem.buf[..]))
    {
      addr := AllocUninit(|data| % 0x1_0000_0000);
      if addr.Some? {
        var w := mem.WriteSlice(addr.value, data);
        if w.Err? {
          addr := None;
        }
      }
    }

    /** Refuses without touching anything when the free list is too short. Otherwise takes descriptors for the
        chain, writes one per buffer and publishes the head; a store that is refused on the way leaves what was
        stored before it, and the descriptors taken. */
    method AddChain(mem: SharedMem, buffers: seq<Buffer>) returns (r: Result<u16, DriverError>)
      requires mem.Valid() && Valid()
      requires buffers != [] && (|buffers| <= |freeDescs| ==> WellOrdered(buffers))
      modifies this`availIdx, this`freeDescs, this`outstanding, mem.buf
      ensures Valid()
      ensures |buffers| > |old(freeDescs)| ==>
        r == Err(OutOfDescriptors) && State() == old(State()) && mem.buf[..] == old(mem.buf[..])
      ensures |buffers| <= |old(freeDescs)| ==>
        var taken := Taken(old(freeDescs), |buffers|);
        && (forall i | 0 <= i < |taken| :: taken[i] < layout.queueSize)
        && var w := WriteAll(old(mem.buf[..]), layout, old(availIdx), taken, buffers);
           && mem.buf[..] == w.mem && State() == Publish(old(State()), |buffers|).(availIdx := w.availIdx)
           && r == if w.error.Some? then Err(Mem(w.error.value)) else Ok(taken[0])
    {
      if |buffers| > |freeDescs| {
        return Err(OutOfDescriptors);
      }
      assert buffers != [];
      hide Partition, Taken, ChainStores, WellOrdered, PowerOfTwo, Wrap, StoreAll, WriteAll;
      ghost var before := State();
      PublishSafe(layout.queueSize, before, |buffers|);
      var indices := TakeDescriptors(|buffers|);
      outstanding := outstanding[indices[0] := indices];
      r := Commit(mem, indices, buffers);
    }

    /** All descriptors first, then the head that makes them reachable. */
    method Commit(mem: SharedMem, indices: seq<u16>, buffers: seq<Buffer>) returns (r: Result<u16, DriverError>)
      requires mem.Valid() && layout.Valid() && 0 < |indices| == |buffers|
      requires forall i | 0 <= i < |indices| :: indices[i] < layout.queueSize
      modifies this`availIdx, mem.buf
      ensures var w := WriteAll(old(mem.buf[..]), layout, old(availIdx), indices, buffers);
        && mem.buf[..] == w.mem && availIdx == w.availIdx
        && r == if w.error.Some? then Err(Mem(w.error.value)) else Ok(indices[0])
    {
      hide ChainStores, Wrap, StoreAll, Slot, Layout.At, Layout.End;
      Widths();
      var w := WriteChain(mem, indices, buffers);
      if w.Err? {
        return Err(Mem(w.error));
      }
      w := WriteField(mem, layout, AvailSlot(Slot(availIdx, layout.queueSize)), indices[0]);
      if w.Err? {
        return Err(Mem(w.error));
      }
      availIdx := Wrap(availIdx + 1);
      w := WriteField(mem, layout, AvailIdx, availIdx);
      if w.Err? {
        return Err(Mem(w.error));
      }
      r := Ok(indices[0]);
    }

    /** Pops `n` descriptors off the free list. */
    method TakeDescriptors(n: nat) returns (indices: seq<u16>)
      requires n <= |freeDescs|
      modifies this`freeDescs
      ensures indices == Taken(old(freeDescs), n) && freeDescs == old(freeDescs)[..|old(freeDescs)| - n]
    {
      indices := [];
      for i := 0 to n
        invariant freeDescs == old(freeDescs)[..|old(freeDescs)| - i]
        invariant indices == Taken(old(freeDescs), i)
      {
        indices := indices + [freeDescs[|freeDescs| - 1]];
        freeDescs := freeDescs[..|freeDescs| - 1];
      }
    }

    /** Writes one descriptor per buffer, each naming the next. */
    method WriteChain(mem: SharedMem, indices: seq<u16>, buffers: seq<Buffer>) returns (r: Result<(), MemError>)
      requires mem.Valid() && layout.Valid() && |indices| == |buffers|
      requires forall i | 0 <= i < |indices| :: indices[i] < layout.queueSize
      modifies mem.buf
      ensures StoreAll(old(mem.buf[..]), layout, ChainStores(layout, indices, buffers, |buffers|))
        == Stores(mem.buf[..], match r case Ok(_) => None case Err(e) => Some(e))
    {
      hide DescFor, DescStores, StoreAll, AllStorable;
      ghost var m := mem.buf[..];
      StoreNone(m, layout);
      for i := 0 to |buffers|
        invariant StoreAll(m, layout, ChainStores(layout, indices, buffers, i)) == Stores(mem.buf[..], None)
      {
        NextStores(m, layout, indices, buffers, i);
        r := WriteDescriptor(mem, indices[i], DescFor(indices, buffers, i));
        if r.Err? {
          StoppedEarly(m, layout, indices, buffers, i + 1, |buffers|);
          return;
        }
      }
      r := Ok(());
    }

    method WriteDescriptor(mem: SharedMem, at: u16, d: Descriptor) returns (r: Result<(), MemError>)
      requires mem.Valid() && layout.Valid() && at < layout.queueSize
      modifies mem.buf
      ensures StoreAll(old(mem.buf[..]), layout, DescStores(layout, at, d))
        == Stores(mem.buf[..], match r case Ok(_) => None case Err(e) => Some(e))
    {
      hide Put, StoreAll;
      FourStores(mem.buf[..], layout, at, d);
      Widths();
      r := WriteField(mem, layout, DescAddr(at), d.addr);
      if r.Err? { return; }
      r := WriteField(mem, layout, DescLen(at), d.len);
      if r.Err? { return; }
      r := WriteField(mem, layout, DescFlags(at), d.flags);
      if r.Err? { return; }
      r := WriteField(mem, layout, DescNext(at), d.next);
    }

    /** The answer covers every publication since the previous call. */
    method NeedsKick(mem: SharedMem) returns (r: Result<bool, MemError>)
      requires mem.Valid() && layout.Valid()
      modifies this`lastKick
      ensures State() == old(State()).(lastKick := availIdx)
      ensures r == if !eventIdx then Ok(true) else
        match LoadShort(mem.buf[..], layout, AvailEvent)
        case Err(e) => Err(e)
        case Ok(event) => Ok(NeedEvent(event, availIdx, old(lastKick)))
    {
      hide LoadShort;
      var previous := lastKick;
      lastKick := availIdx;
      if !eventIdx {
        return Ok(true);
      }
      var availEvent := ReadShort(mem, layout, AvailEvent);
      if availEvent.Err? {
        return Err(availEvent.error);
      }
      return Ok(NeedEvent(availEvent.value, availIdx, previous));
    }

    method ArmUsedEvent(mem: SharedMem) returns (r: Result<(), MemError>)
      requires mem.Valid() && layout.Valid()
      modifies mem.buf
      ensures (Widths(); StoreAll(old(mem.buf[..]), layout, [(UsedEvent, lastUsed as nat)]))
        == Stores(mem.buf[..], match r case Ok(_) => None case Err(e) => Some(e))
    {
      Widths();
      r := WriteField(mem, layout, UsedEvent, lastUsed);
    }

    /** Takes every completion up to the published index, freeing the descriptors of each named chain, or stops
        at the first one that cannot be read. */
    method CollectUsed(mem: SharedMem) returns (r: Result<seq<(u16, u32)>, MemError>)
      requires mem.Valid() && Valid()
      modifies this`lastUsed, this`freeDescs, this`outstanding
      ensures Valid()
      ensures match LoadShort(mem.buf[..], layout, UsedIdx)
        case Err(e) => r == Err(e) && State() == old(State())
        case Ok(usedIdx) =>
          var c := CollectIn(mem.buf[..], layout, old(State()), Wrap(usedIdx - old(lastUsed)));
          State() == c.taken.driver && r == if c.error.Some? then Err(c.error.value) else Ok(c.taken.out)
    {
      hide LoadShort, UsedIn, Partition, Wrap, Retire, CollectIn;
      ghost var before, m := State(), mem.buf[..];
      var usedIdx := ReadShort(mem, layout, UsedIdx);
      if usedIdx.Err? {
        return Err(usedIdx.error);
      }
      ghost var n, i := Wrap(usedIdx.value - lastUsed), 0;
      CollectNone(m, layout, before);
      var out: seq<(u16, u32)> := [];
      while lastUsed != usedIdx.value
        invariant 0 <= i <= n && Wrap(usedIdx.value - lastUsed) == n - i
        invariant Partition(layout.queueSize, freeDescs, outstanding)
        invariant CollectIn(m, layout, before, i) == Collected(Collecting(State(), out), None)
        decreases n - i
      {
        Closer(usedIdx.value, lastUsed);
        CollectMore(m, layout, before, i);
        var completion := TakeCompletion(mem);
        if completion.Err? {
          CollectStopped(m, layout, before, i + 1, n);
          return Err(completion.error);
        }
        out := out + [completion.value];
        i := i + 1;
      }
      Closer(usedIdx.value, lastUsed);
      return Ok(out);
    }

    /** Takes the next completion and frees the descriptors of the chain it names, if there is one. */
    method TakeCompletion(mem: SharedMem) returns (r: Result<(u16, u32), MemError>)
      requires mem.Valid() && Valid()
      modifies this`lastUsed, this`freeDescs, this`outstanding
      ensures Valid()
      ensures match UsedIn(mem.buf[..], layout, old(lastUsed))
        case Err(e) => r == Err(e) && State() == old(State())
        case Ok((id, len)) =>
          r == Ok((Wrap(id), len)) && State() == Retire(old(State()), Wrap(id)) && lastUsed == Wrap(old(lastUsed) + 1)
    {
      hide Partition, Slot, Wrap, LoadField;
      var completion := ReadUsed(mem, lastUsed);
      if completion.Err? {
        return Err(completion.error);
      }
      var (id, len) := completion.value;
      RetireKeeps(layout.queueSize, State(), id);
      if id in outstanding {
        freeDescs := freeDescs + outstanding[id];
        outstanding := outstanding - {id};
      }
      lastUsed := Wrap(lastUsed + 1);
      return Ok((id, len));
    }

    /** The `n`-th completion ever published; its id is cut to 16 bits. */
    method ReadUsed(mem: SharedMem, n: u16) returns (r: Result<(u16, u32), MemError>)
      requires mem.Valid() && layout.Valid()
      ensures r == match UsedIn(mem.buf[..], layout, n) case Err(e) => Err(e) case Ok((id, len)) => Ok((Wrap(id), len))
    {
      hide LoadField, Slot, Wrap;
      Widths();
      var slot := Slot(n, layout.queueSize);
      var id := ReadField(mem, layout, UsedId(slot));
      if id.Err? {
        return Err(id.error);
      }
      var len := ReadField(mem, layout, UsedLen(slot));
      if len.Err? {
        return Err(len.error);
      }
      return Ok((Wrap(id.value), len.value));
    }
  }

  // ---------------------------------------------------------------- lists of stores

  lemma FourStores(m: seq<byte>, l: Layout, at: nat, d: Descriptor)
    requires l.Valid() && at < l.queueSize
    ensures (Widths();
      var s1 := StoreAll(m, l, [(DescAddr(at), d.addr)]);
      var s2 := StoreAll(s1.mem, l, [(DescLen(at), d.len)]);
      var s3 := StoreAll(s2.mem, l, [(DescFlags(at), d.flags)]);
      StoreAll(m, l, DescStores(l, at, d)) ==
        if s1.error.Some? then s1 else if s2.error.Some? then s2 else if s3.error.Some? then s3
        else StoreAll(s3.mem, l, [(DescNext(at), d.next)]))
  {
    hide StoreAll, AllStorable;
    Widths();
    var f1: seq<(Field, nat)> := [(DescAddr(at), d.addr)];
    var f2: seq<(Field, nat)> := [(DescLen(at), d.len)];
    var f3: seq<(Field, nat)> := [(DescFlags(at), d.flags)];
    var f4: seq<(Field, nat)> := [(DescNext(at), d.next)];
    Singles(l, at, d);
    StoreAllJoin(m, l, f1, f2 + (f3 + f4));
    StoreAllJoin(StoreAll(m, l, f1).mem, l, f2, f3 + f4);
    StoreAllJoin(StoreAll(StoreAll(m, l, f1).mem, l, f2).mem, l, f3, f4);
    assert f1 + (f2 + (f3 + f4)) == DescStores(l, at, d);
  }

  lemma Singles(l: Layout, at: nat, d: Descriptor)
    requires l.Valid() && at < l.queueSize
    ensures AllStorable(l, [(DescAddr(at), d.addr)]) && AllStorable(l, [(DescLen(at), d.len)])
    ensures AllStorable(l, [(DescFlags(at), d.flags)]) && AllStorable(l, [(DescNext(at), d.next)])
    ensures AllStorable(l, [(DescFlags(at), d.flags)] + [(DescNext(at), d.next)])
    ensures AllStorable(l, [(DescLen(at), d.len)] + ([(DescFlags(at), d.flags)] + [(DescNext(at), d.next)]))
  {
    Widths();
  }

  /** After the first `i` descriptors come the stores of the next one. */
  lemma NextStores(m: seq<byte>, l: Layout, indices: seq<u16>, buffers: seq<Buffer>, i: nat)
    requires l.Valid() && i < |buffers| == |indices| && forall k | 0 <= k < |indices| :: indices[k] < l.queueSize
    requires StoreAll(m, l, ChainStores(l, indices, buffers, i)).error == None
    ensures StoreAll(m, l, ChainStores(l, indices, buffers, i + 1))
      == StoreAll(StoreAll(m, l, ChainStores(l, indices, buffers, i)).mem, l,
                  DescStores(l, indices[i], DescFor(indices, buffers, i)))
  {
    hide StoreAll, AllStorable, DescStores, DescFor;
    StoreAllJoin(m, l, ChainStores(l, indices, buffers, i), DescStores(l, indices[i], DescFor(indices, buffers, i)));
  }

  /** A refused store is the last one that is tried. */
  lemma {:induction false} StoppedEarly(m: seq<byte>, l: Layout, indices: seq<u16>, buffers: seq<Buffer>,
                                        i: nat, n: nat)
    requires l.Valid() && i <= n <= |buffers| == |indices| && forall k | 0 <= k < |indices| :: indices[k] < l.queueSize
    requires StoreAll(m, l, ChainStores(l, indices, buffers, i)).error.Some?
    ensures StoreAll(m, l, ChainStores(l, indices, buffers, n)) == StoreAll(m, l, ChainStores(l, indices, buffers, i))
    decreases n - i
  {
    hide StoreAll, AllStorable, DescStores, DescFor;
    if i < n {
      StoreAllJoin(m, l, ChainStores(l, indices, buffers, n - 1),
                   DescStores(l, indices[n - 1], DescFor(indices, buffers, n - 1)));
      StoppedEarly(m, l, indices, buffers, i, n - 1);
    }
  }

  // ---------------------------------------------------------------- collecting

  lemma CollectNone(m: seq<byte>, l: Layout, d: DriverState)
    requires l.Valid()
    ensures CollectIn(m, l, d, 0) == Collected(Collecting(d, []), None)
  {
  }

  lemma CollectMore(m: seq<byte>, l: Layout, d: DriverState, i: nat)
    requires l.Valid() && CollectIn(m, l, d, i).error == None
    ensures var c := CollectIn(m, l, d, i);
      CollectIn(m, l, d, i + 1) == match UsedIn(m, l, c.taken.driver.lastUsed)
        case Err(e) => Collected(c.taken, Some(e))
        case Ok((id, len)) =>
          Collected(Collecting(Retire(c.taken.driver, Wrap(id)), c.taken.out + [(Wrap(id), len)]), None)
  {
    hide UsedIn, Retire;
  }

  lemma {:induction false} CollectStopped(m: seq<byte>, l: Layout, d: DriverState, i: nat, n: nat)
    requires l.Valid() && i <= n && CollectIn(m, l, d, i).error.Some?
    ensures CollectIn(m, l, d, n) == CollectIn(m, l, d, i)
    decreases n - i
  {
    hide UsedIn, Retire;
    if i < n {
      CollectStopped(m, l, d, i, n - 1);
    }
  }

  /** The wrapped distance to a counter is zero only at the counter, and each step short of it counts. */
  lemma Closer(target: u16, at: u16)
    ensures Wrap(target - at) == 0 <==> at == target
    ensures at != target ==> Wrap(target - Wrap(at + 1)) == Wrap(target - at) - 1
  {
  }
}
