/** The device half of the queue (toy-virtq-raw/src/device.rs:190-445). */
module DeviceSide {
  import opened Words
  import opened Memory
  import opened VirtqLayout
  import opened Rings
  import opened ChainWalk
  import opened DeviceSpec
  import opened DeviceFacts
  import opened Steadiness
  import opened Tally
  import opened Notify
  import opened Fields

  class Device {
    const layout: Layout
    const eventIdx: bool
    var nextAvail: u16
    var nextUsed: u16
    var numAdded: u16

    ghost function State(): DeviceState
      reads this
    {
      DeviceState(nextAvail, nextUsed, numAdded)
    }

    constructor (layout: Layout, eventIdx: bool)
      requires layout.Valid()
      ensures this.layout == layout && this.eventIdx == eventIdx
      ensures State() == DeviceState(0, 0, 0)
    {
      this.layout, this.eventIdx := layout, eventIdx;
      nextAvail, nextUsed, numAdded := 0, 0, 0;
    }

    method Available(mem: SharedMem) returns (r: Result<u16, MemError>)
      requires mem.Valid() && layout.Valid()
      ensures r == PendingIn(mem.buf[..], layout, State())
    {
      hide LoadShort;
      var availIdx := ReadShort(mem, layout, AvailIdx);
      if availIdx.Err? {
        return Err(availIdx.error);
      }
      return Ok(Wrap(availIdx.value - nextAvail));
    }

    /** Takes the next head and moves on, or takes nothing: because nothing waits, or because the index or the
        slot cannot be read. */
    method PopChainHead(mem: SharedMem) returns (r: Result<Option<u16>, MemError>)
      requires mem.Valid() && layout.Valid()
      modifies this
      ensures var pending := PendingIn(mem.buf[..], layout, old(State()));
        var head := HeadIn(mem.buf[..], layout, old(nextAvail), 0);
        && r == (if pending.Err? then Err(pending.error) else if pending.value == 0 then Ok(None)
                 else if head.Err? then Err(head.error) else Ok(Some(head.value)))
        && State() == if r.Ok? && r.value.Some? then old(State()).(nextAvail := Wrap(old(nextAvail) + 1))
                      else old(State())
    {
      hide LoadShort, Slot, Layout.At;
      var available := Available(mem);
      if available.Err? {
        return Err(available.error);
      }
      if available.value == 0 {
        return Ok(None);
      }
      var head := ReadShort(mem, layout, AvailSlot(Slot(nextAvail, layout.queueSize)));
      if head.Err? {
        return Err(head.error);
      }
      nextAvail := Wrap(nextAvail + 1);
      return Ok(Some(head.value));
    }

    method AddUsed(mem: SharedMem, head: u16, len: u32) returns (r: Result<(), MemError>)
      requires mem.Valid() && layout.Valid()
      modifies this, mem.buf
      ensures Complete(old(mem.buf[..]), layout, old(State()), head, len)
        == Completed(mem.buf[..], State(), match r case Ok(_) => None case Err(e) => Some(e))
    {
      hide Put, Slot, StoreAll;
      Widths();
      var slot := Slot(nextUsed, layout.queueSize);
      ghost var m := mem.buf[..];
      StoreTwo(m, layout, UsedId(slot), head, UsedLen(slot), len);
      r := WriteField(mem, layout, UsedId(slot), head);
      if r.Err? {
        return;
      }
      r := WriteField(mem, layout, UsedLen(slot), len);
      if r.Err? {
        return;
      }
      nextUsed := Wrap(nextUsed + 1);
      numAdded := Wrap(numAdded + 1);
      r := WriteField(mem, layout, UsedIdx, nextUsed);
    }

    /** The answer covers every completion since the previous call. */
    method NeedsNotification(mem: SharedMem) returns (r: Result<bool, MemError>)
      requires mem.Valid() && layout.Valid()
      modifies this
      ensures State() == if r.Ok? then old(State()).(numAdded := 0) else old(State())
      ensures r == if !eventIdx then Ok(true) else
        match LoadShort(mem.buf[..], layout, UsedEvent)
        case Err(e) => Err(e)
        case Ok(event) => Ok(NeedEvent(event, nextUsed, Wrap(old(nextUsed) - old(numAdded))))
    {
      if !eventIdx {
        numAdded := 0;
        return Ok(true);
      }
      hide LoadShort;
      var usedEvent := ReadShort(mem, layout, UsedEvent);
      if usedEvent.Err? {
        return Err(usedEvent.error);
      }
      var previous := Wrap(nextUsed - numAdded);
      numAdded := 0;
      return Ok(NeedEvent(usedEvent.value, nextUsed, previous));
    }

    /** Re-arms kicks and then looks again; the answer says whether chains arrived in between. */
    method EnableNotification(mem: SharedMem) returns (r: Result<bool, MemError>)
      requires mem.Valid() && layout.Valid()
      modifies mem.buf
      ensures match Rearm(old(mem.buf[..]), layout, State(), eventIdx)
        case Err(e) => r == Err(e) && mem.buf[..] == old(mem.buf[..])
        case Ok(m) =>
          && mem.buf[..] == m
          && match PendingIn(m, layout, State()) case Err(e) => r == Err(e) case Ok(pending) => r == Ok(pending != 0)
    {
      hide Put, LoadShort, StoreAll, Wrap, ClearNoNotify;
      Widths();
      if eventIdx {
        var w := WriteField(mem, layout, AvailEvent, nextAvail);
        if w.Err? {
          NothingStored(old(mem.buf[..]), layout, AvailEvent, nextAvail);
          return Err(w.error);
        }
      } else {
        var flags := ReadShort(mem, layout, UsedFlags);
        if flags.Err? {
          return Err(flags.error);
        }
        var w := WriteField(mem, layout, UsedFlags, ClearNoNotify(flags.value));
        if w.Err? {
          NothingStored(old(mem.buf[..]), layout, UsedFlags, ClearNoNotify(flags.value));
          return Err(w.error);
        }
      }
      var available := Available(mem);
      if available.Err? {
        return Err(available.error);
      }
      r := Ok(available.value != 0);
    }

    /** Walks the whole chain before anything acts on it. */
    method CollectChain(mem: SharedMem, head: u16)
      returns (count: nat, readable: Buffers, writable: Buffers, error: Option<ChainError>)
      requires mem.Valid() && layout.Valid()
      ensures var w := WalkChain(TableOf(mem.buf[..], layout), head);
        count == |w.descs| && readable == Readable(w.descs) && writable == Writable(w.descs) && error == w.error
    {
      hide TableOf, Advance, Walk;
      ghost var t := TableOf(mem.buf[..], layout);
      ghost var seen: seq<Descriptor> := [];
      count, readable, writable, error := 0, [], [], None;
      var it := new ChainIter(mem, layout, head);
      ghost var rest := Walk(t, it.State());
      while true
        invariant fresh(it) && it.mem == mem && it.layout == layout
        invariant t == TableOf(mem.buf[..], layout)
        invariant rest == Walk(t, it.State())
        invariant WalkChain(t, head) == Walked(seen + rest.descs, rest.error)
        invariant count == |seen| && readable == Readable(seen) && writable == Writable(seen)
        decreases Steps(it.State())
      {
        AdvanceProgress(t, it.State());
        var item := it.Next();
        match item {
          case None =>
            assert seen + [] == seen;
            return;
          case Some(Err(e)) =>
            assert seen + [] == seen;
            error := Some(e);
            return;
          case Some(Ok(d)) =>
            SplitAppend(seen, d);
            rest := Walk(t, it.State());
            count := count + 1;
            if d.IsWriteOnly() {
              writable := writable + [(d.addr, d.len)];
            } else {
              readable := readable + [(d.addr, d.len)];
            }
            seen := seen + [d];
        }
      }
    }

    method GatherRequest(mem: SharedMem, head: u16, readable: Buffers, rejected: seq<(u16, RejectReason)>)
      returns (request: seq<byte>, rejected': seq<(u16, RejectReason)>)
      requires mem.Valid()
      ensures var g := Gather(mem.buf[..], readable);
        request == g.request && rejected' == rejected + Rejections(head, g.failures)
    {
      ghost var m, failures: seq<MemError> := mem.buf[..], [];
      request, rejected' := [], rejected;
      for i := 0 to |readable|
        invariant var rest := Gather(m, readable[i..]);
          Gather(m, readable) == Gathered(request + rest.request, failures + rest.failures)
        invariant rejected' == rejected + Rejections(head, failures)
      {
        var (addr, len) := readable[i];
        assert readable[i..] == [(addr, len)] + readable[i + 1..];
        match mem.ReadSlice(addr, len) {
          case Ok(s) => request := request + s;
          case Err(e) =>
            failures := failures + [e];
            rejected' := rejected' + [(head, Buffer(e))];
        }
      }
    }

    /** Stores the response in order, stopping when it is used up or a buffer refuses it. */
    method ScatterResponse(mem: SharedMem, head: u16, writable: Buffers, response: seq<byte>,
                           rejected: seq<(u16, RejectReason)>)
      returns (written: u32, rejected': seq<(u16, RejectReason)>)
      requires mem.Valid() && Length(writable) < 0x1_0000_0000
      modifies mem.buf
      ensures var s := Scatter(old(mem.buf[..]), writable, response);
        && mem.buf[..] == s.mem && written == s.written
        && rejected' == rejected + (if s.failure.Some? then [(head, Buffer(s.failure.value))] else [])
    {
      hide Scatter, Length;
      ghost var m := mem.buf[..];
      rejected' := rejected;
      written := 0;
      var cursor := 0;
      assert response[0..] == response && writable[0..] == writable;
      for i := 0 to |writable|
        invariant 0 <= cursor <= |response| && written == cursor
        invariant rejected' == rejected
        invariant written + Length(writable[i..]) <= Length(writable)
        invariant Scatter(m, writable, response)
          == Resume(written, Scatter(mem.buf[..], writable[i..], response[cursor..]))
      {
        ScatterStep(mem.buf[..], writable, i, response, cursor);
        if cursor >= |response| {
          break;
        }
        var (addr, len) := writable[i];
        var n := Min(len, |response| - cursor);
        var w := mem.WriteSlice(addr, response[cursor..cursor + n]);
        if w.Err? {
          rejected' := rejected' + [(head, Buffer(w.error))];
          break;
        }
        cursor := cursor + n;
        written := written + n;
      }
      ScatterEnd(mem.buf[..], writable, response, cursor);
    }

    /** Serves the chain at `head` and publishes its completion: the body of the loop of `process`. */
    method ServeChain(mem: SharedMem, head: u16, work: Work, requests: seq<seq<byte>>, stats: ProcessStats)
      returns (r: Result<ProcessStats, MemError>, requests': seq<seq<byte>>)
      requires mem.Valid() && layout.Valid()
      modifies this, mem.buf
      ensures var m := old(mem.buf[..]);
        var s := Serve(m, TableOf(m, layout), head, work, requests, stats);
        var c := Complete(s.mem, layout, old(State()), head, s.len);
        && mem.buf[..] == c.mem && State() == c.dev
        && r == (if c.error.Some? then Err(c.error.value) else Ok(s.stats)) && requests' == s.requests
    {
      hide TableOf, Gather, Scatter, Complete, Readable, Writable, Length, Rejections, WalkChain, Wrap, PowerOfTwo;
      ghost var t := TableOf(mem.buf[..], layout);
      var count, readable, writable, chainError := CollectChain(mem, head);
      var stats1 := stats.(descriptors := stats.descriptors + count, chains := stats.chains + 1);
      requests' := requests;
      var len: u32 := 0;
      if chainError.Some? {
        stats1 := stats1.(rejected := stats.rejected + [(head, Chain(chainError.value))]);
      } else {
        var request, rejected := GatherRequest(mem, head, readable, stats.rejected);
        requests' := requests + [request];
        var response := work(requests');
        WrittenBound(t, head);
        len, rejected := ScatterResponse(mem, head, writable, response, rejected);
        stats1 := stats1.(bytesRead := stats.bytesRead + |request|, bytesWritten := stats.bytesWritten + len,
                          rejected := rejected);
      }
      var done := AddUsed(mem, head, len);
      r := if done.Err? then Err(done.error) else Ok(stats1);
    }

    /** Serves chains until none is available or an access is refused. It is required that no pending chain
        makes the device write over what the pass reads; then the pass ends, after at most as many chains as
        were available, and over rings that lie in the region after exactly those. */
    method Process(mem: SharedMem, work: Work) returns (r: Result<ProcessStats, MemError>)
      requires mem.Valid() && layout.Valid()
      requires Steady(mem.buf[..], layout, nextAvail, AvailableNow(mem.buf[..], layout, State()))
      modifies this, mem.buf
      ensures var p := StartPass(old(mem.buf[..]), old(State()));
        exists n :: 0 <= n <= AvailableNow(p.mem, layout, p.dev)
          && EndsAfter(layout, p, work, n, r, mem.buf[..], State())
      ensures old(RingsIn(mem.buf[..], layout)) ==>
        var p := StartPass(old(mem.buf[..]), old(State()));
        var q := Drain(layout, p, work, Pending(p.mem, layout, p.dev));
        && r == Ok(q.stats) && mem.buf[..] == q.mem && State() == q.dev
        && Pending(q.mem, layout, q.dev) == 0
      ensures r.Ok? ==> exists done ::
          Tallies(layout, old(mem.buf[..]), mem.buf[..], old(State()), State(), done, r.value)
    {
      hide Steady, Tallies, Serve, Complete, HasTaken, Head, View, Wrap, PowerOfTwo, TableOf, HeadIn, PendingIn;
      ghost var p := StartPass(mem.buf[..], State());
      ghost var n := AvailableNow(p.mem, layout, p.dev);
      ghost var i: nat, completed: seq<(u16, u32)> := 0, [];
      var stats, requests: seq<seq<byte>> := ProcessStats(0, 0, 0, 0, []), [];
      while true
        invariant 0 <= i <= n
        invariant After(layout, p, work, i) == Some(Pass(mem.buf[..], State(), stats, requests, completed))
        decreases n - i
      {
        ghost var q := Pass(mem.buf[..], State(), stats, requests, completed);
        TurnsLeft(layout, p, work, i);
        var popped := PopChainHead(mem);
        match popped {
          case Err(e) =>
            PassEnded(layout, p, work, i);
            assert EndsAfter(layout, p, work, i, Err(e), mem.buf[..], State());
            return Err(e);
          case Ok(None) =>
            PassEnded(layout, p, work, i);
            PassTallied(layout, p, work, n, i);
            assert EndsAfter(layout, p, work, i, Ok(stats), mem.buf[..], State());
            return Ok(stats);
          case Ok(Some(head)) =>
            var served;
            served, requests := ServeChain(mem, head, work, requests, stats);
            if served.Err? {
              PassEnded(layout, p, work, i);
              assert EndsAfter(layout, p, work, i, Err(served.error), mem.buf[..], State());
              return Err(served.error);
            }
            stats := served.value;
            completed := After(layout, p, work, i + 1).value.completed;
            i := i + 1;
        }
      }
    }
  }

  /** How many chains can be seen to be available. */
  function AvailableNow(m: seq<byte>, l: Layout, dev: DeviceState): nat
    requires l.Valid()
  {
    match PendingIn(m, l, dev) case Err(_) => 0 case Ok(pending) => pending
  }

  /** After `i` turns of a pass, `i` fewer chains are available. */
  lemma TurnsLeft(l: Layout, p: Pass, work: Work, i: nat)
    requires l.Valid() && p.completed == [] && After(l, p, work, i).Some?
    requires i <= AvailableNow(p.mem, l, p.dev) && Steady(p.mem, l, p.dev.nextAvail, AvailableNow(p.mem, l, p.dev))
    ensures var q := After(l, p, work, i).value;
      PendingIn(q.mem, l, q.dev)
        == match PendingIn(p.mem, l, p.dev) case Err(e) => Err(e) case Ok(pending) => Ok(pending - i)
  {
    hide After, SteadyChain, TableOf, HeadIn, PendingIn;
    AfterTakes(l, p, work, i);
    LeftAfter(l, p, After(l, p, work, i).value, i);
  }

  /** Where the pass over rings that lie in the region stops, it has served every chain that was available. */
  lemma PassEnded(l: Layout, p: Pass, work: Work, i: nat)
    requires l.Valid() && p.completed == [] && After(l, p, work, i).Some? && i <= AvailableNow(p.mem, l, p.dev)
    requires Steady(p.mem, l, p.dev.nextAvail, AvailableNow(p.mem, l, p.dev))
    requires !Turn(l, After(l, p, work, i).value, work).Continued?
    ensures RingsIn(p.mem, l) ==>
      && i == Pending(p.mem, l, p.dev)
      && After(l, p, work, i).value == Drain(l, p, work, i)
      && Turn(l, Drain(l, p, work, i), work) == Finished
      && Pending(Drain(l, p, work, i).mem, l, Drain(l, p, work, i).dev) == 0
  {
    hide After, SteadyChain, TableOf, HeadIn, PendingIn, Turn, Pending, Drain;
    TurnsLeft(l, p, work, i);
    if RingsIn(p.mem, l) {
      PendingShown(p.mem, l, p.dev);
      AfterDrains(l, p, work, i);
      var q := Drain(l, p, work, i);
      PendingShown(q.mem, l, q.dev);
      TurnServes(l, q, work);
    }
  }

  /** What the pass returns there. */
  lemma PassTallied(l: Layout, p: Pass, work: Work, n: nat, i: nat)
    requires l.Valid() && p.completed == [] && After(l, p, work, i).Some? && i <= n
    requires p.stats == ProcessStats(0, 0, 0, 0, p.stats.rejected) && Steady(p.mem, l, p.dev.nextAvail, n)
    requires RingsIn(p.mem, l) ==> i == Pending(p.mem, l, p.dev) && After(l, p, work, i).value == Drain(l, p, work, i)
    ensures var q := After(l, p, work, i).value; Tallies(l, p.mem, q.mem, p.dev, q.dev, q.completed, q.stats)
  {
    hide After, Steady, Pending, Drain, Counts, InUsedRing;
    CountsUpTo(l, p, work, i, n);
    if RingsIn(p.mem, l) {
      RingAfter(l, p, work, i);
    }
  }

  lemma WrittenBound(t: Table, head: u16)
    ensures Length(Writable(WalkChain(t, head).descs)) < 0x1_0000_0000
  {
    hide Writable, Length;
    WrittenFits(t, Start(t, head));
  }

  lemma StoreTwo(m: seq<byte>, l: Layout, f: Field, v: nat, g: Field, w: nat)
    requires l.Valid() && Storable(l, f, v) && Storable(l, g, w)
    ensures var s := StoreAll(m, l, [(f, v)]);
      StoreAll(m, l, [(f, v), (g, w)]) == if s.error.Some? then s else StoreAll(s.mem, l, [(g, w)])
  {
    hide Layout.At, Layout.Width, Layout.Has, Patch, ToLE;
    assert [(f, v), (g, w)][1..] == [(g, w)] && [(f, v)][1..] == [];
  }

  /** A single store that is refused changes nothing. */
  lemma NothingStored(m: seq<byte>, l: Layout, f: Field, v: nat)
    requires l.Valid() && Storable(l, f, v)
    ensures StoreAll(m, l, [(f, v)]).error.Some? ==> StoreAll(m, l, [(f, v)]).mem == m
  {
    hide Layout.At, Layout.Width, Layout.Has, Patch, ToLE;
    assert [(f, v)][1..] == [];
  }

  lemma ScatterStep(m: seq<byte>, bs: Buffers, i: nat, response: seq<byte>, cursor: nat)
    requires i < |bs| && cursor <= |response|
    ensures Length(bs[i..]) == bs[i].1 + Length(bs[i + 1..])
    ensures var n := Min(bs[i].1, |response| - cursor);
      Scatter(m, bs[i..], response[cursor..]) ==
        if cursor == |response| then Scattered(m, 0, None)
        else if bs[i].0 + n > |m| then Scattered(m, 0, Some(OutOfBounds(bs[i].0, n, |m|)))
        else Resume(n, Scatter(Patch(m, bs[i].0, response[cursor..cursor + n]), bs[i + 1..], response[cursor + n..]))
  {
    hide Scatter, Patch, Length, Resume;
    var n := Min(bs[i].1, |response| - cursor);
    Slices(bs, i, response, cursor, n);
    ScatterFirst(m, bs[i], bs[i + 1..], response[cursor..]);
  }

  lemma Slices(bs: Buffers, i: nat, response: seq<byte>, cursor: nat, n: nat)
    requires i < |bs| && cursor + n <= |response|
    ensures bs[i..] == [bs[i]] + bs[i + 1..]
    ensures response[cursor..][..n] == response[cursor..cursor + n]
    ensures response[cursor..][n..] == response[cursor + n..]
  {
  }

  lemma ScatterEnd(m: seq<byte>, bs: Buffers, response: seq<byte>, cursor: nat)
    requires cursor <= |response|
    ensures Scatter(m, bs[|bs|..], response[cursor..]) == Scattered(m, 0, None)
  {
  }

  lemma {:induction false} SplitAppend(ds: seq<Descriptor>, d: Descriptor)
    ensures Readable(ds + [d]) == Readable(ds) + (if d.IsWriteOnly() then [] else [(d.addr, d.len)])
    ensures Writable(ds + [d]) == Writable(ds) + (if d.IsWriteOnly() then [(d.addr, d.len)] else [])
  {
    if ds != [] {
      SplitAppend(ds[1..], d);
      assert (ds + [d])[1..] == ds[1..] + [d];
    }
  }

  /** `flags & !VIRTQ_USED_F_NO_NOTIFY`. */
  function ClearNoNotify(flags: u16): u16 {
    flags - flags % 2
  }

  /** Bit 0 is cleared, the others stay. */
  lemma ClearsBitZero(flags: u16, bit0: nat, rest: nat)
    requires bit0 <= 1 && flags == bit0 + 2 * rest
    ensures ClearNoNotify(flags) == 2 * rest
  {
  }

  /** The region after `enable_notification` stored its request: the event index, or with plain flags the
      no-notify bit cleared. */
  function Rearmed(m: seq<byte>, l: Layout, dev: DeviceState, eventIdx: bool): (r: seq<byte>)
    requires l.Valid() && RingsIn(m, l)
    ensures |r| == |m|
  {
    Widths();
    if eventIdx then Put(m, l, AvailEvent, dev.nextAvail)
    else var flags := Num(m, l, UsedFlags); Put(m, l, UsedFlags, ClearNoNotify(flags))
  }

  /** The same store on any region: it, or the read of the flags before it, may be refused. */
  function Rearm(m: seq<byte>, l: Layout, dev: DeviceState, eventIdx: bool): Result<seq<byte>, MemError>
    requires l.Valid()
  {
    Widths();
    if eventIdx then
      var s := StoreAll(m, l, [(AvailEvent, dev.nextAvail)]);
      if s.error.Some? then Err(s.error.value) else Ok(s.mem)
    else
      match LoadShort(m, l, UsedFlags)
      case Err(e) => Err(e)
      case Ok(flags) =>
        var s := StoreAll(m, l, [(UsedFlags, ClearNoNotify(flags))]);
        if s.error.Some? then Err(s.error.value) else Ok(s.mem)
  }

  lemma RearmStores(m: seq<byte>, l: Layout, dev: DeviceState, eventIdx: bool)
    requires l.Valid() && RingsIn(m, l)
    ensures Rearm(m, l, dev, eventIdx) == Ok(Rearmed(m, l, dev, eventIdx))
    ensures PendingIn(Rearmed(m, l, dev, eventIdx), l, dev) == Ok(Pending(m, l, dev))
  {
    hide Put, StoreAll, View, PendingIn, ClearNoNotify, Num;
    Widths();
    var (f, v) := if eventIdx then (AvailEvent, dev.nextAvail) else
      var flags := Num(m, l, UsedFlags); (UsedFlags, ClearNoNotify(flags));
    StoreAllPuts(m, l, f, v, []);
    assert [(f, v as nat)] + [] == [(f, v)];
    StoreNone(Put(m, l, f, v), l);
    RearmedView(m, l, dev, eventIdx);
    PendingShown(Rearmed(m, l, dev, eventIdx), l, dev);
  }

  lemma RearmedView(m: seq<byte>, l: Layout, dev: DeviceState, eventIdx: bool)
    requires l.Valid() && RingsIn(m, l)
    ensures var r := View(m, l);
      View(Rearmed(m, l, dev, eventIdx), l) ==
        if eventIdx then r.(availEvent := dev.nextAvail) else r.(usedFlags := ClearNoNotify(r.usedFlags))
    ensures SameOutside(m, Rearmed(m, l, dev, eventIdx), l.descTable, l.End())
  {
    hide Num, Put, TableAt, AvailRingAt, UsedRingAt;
    Widths();
    var (f, v) := if eventIdx then (AvailEvent, dev.nextAvail) else
      var flags := Num(m, l, UsedFlags); (UsedFlags, ClearNoNotify(flags));
    ViewOfPut(m, l, f, v);
    PutStaysInside(m, l, f, v);
  }
}
