/** The counters that `process` returns, in terms of what the device finds and what it completes
    (toy-virtq-raw/src/device.rs:366-444). */
module Tally {
  import opened Words
  import opened VirtqLayout
  import opened Rings
  import opened ChainWalk
  import opened DeviceSpec
  import opened DeviceFacts
  import opened Steadiness
  import opened ScatterGather

  /** The lengths that completions report, added up. */
  function Total(done: seq<(u16, u32)>): nat {
    if done == [] then 0 else Total(done[..|done| - 1]) + done[|done| - 1].1
  }

  /** The walk over the `k`-th chain from position `a` on; nothing where its head cannot be read. */
  ghost function Found(m: seq<byte>, l: Layout, a: u16, k: nat): Walked
    requires l.Valid()
  {
    match HeadIn(m, l, a, k)
    case Err(_) => Walked([], None)
    case Ok(head) => WalkChain(TableOf(m, l), head)
  }

  /** How many bytes a walked chain asks the device to read: those of its readable buffers that lie in the region,
      and none if it is malformed. */
  ghost function Asks(m: seq<byte>, w: Walked): nat {
    if w.error.Some? then 0 else Length(Inside(m, Readable(w.descs)))
  }

  /** The first `n` chains from position `a` on: how many descriptors a walk over each of them yields. */
  ghost function Descriptors(m: seq<byte>, l: Layout, a: u16, n: nat): nat
    requires l.Valid()
  {
    if n == 0 then 0 else Descriptors(m, l, a, n - 1) + |Found(m, l, a, n - 1).descs|
  }

  /** And how many bytes they ask the device to read. */
  ghost function Asked(m: seq<byte>, l: Layout, a: u16, n: nat): nat
    requires l.Valid()
  {
    if n == 0 then 0 else Asked(m, l, a, n - 1) + Asks(m, Found(m, l, a, n - 1))
  }

  /** The counters are those of a pass that began over `m` at position `a` and published these completions. */
  ghost predicate Counts(m: seq<byte>, l: Layout, a: u16, done: seq<(u16, u32)>, stats: ProcessStats)
    requires l.Valid()
  {
    && stats.chains == |done|
    && stats.descriptors == Descriptors(m, l, a, |done|)
    && stats.bytesRead == Asked(m, l, a, |done|)
    && stats.bytesWritten == Total(done)
    && (forall k | 0 <= k < |done| :: HeadIn(m, l, a, k) == Ok(done[k].0))
  }

  /** Two sets of counters differ by what one chain adds. */
  ghost predicate Adds(m: seq<byte>, w: Walked, len: u32, before: ProcessStats, after: ProcessStats) {
    && after.chains == before.chains + 1
    && after.descriptors == before.descriptors + |w.descs|
    && after.bytesRead == before.bytesRead + Asks(m, w)
    && after.bytesWritten == before.bytesWritten + len
  }

  lemma ServeAdds(m: seq<byte>, t: Table, head: u16, work: Work, requests: seq<seq<byte>>, stats: ProcessStats)
    ensures var s := Serve(m, t, head, work, requests, stats);
      Adds(m, WalkChain(t, head), s.len, stats, s.stats)
  {
    hide WalkChain, Serve, Contents, Inside, Length, Readable, Writable, Ends, Placed;
    if WalkChain(t, head).error.Some? {
      ServeRefused(m, t, head, work, requests, stats);
    } else {
      ServeExact(m, t, head, work, requests, stats);
    }
  }

  /** What a chain asks for depends on where its buffers lie, not on what they hold. */
  lemma AsksSame(m: seq<byte>, m': seq<byte>, w: Walked)
    requires |m'| == |m|
    ensures Asks(m', w) == Asks(m, w)
  {
    InsideSame(m, m', Readable(w.descs));
  }

  lemma TurnAdds(l: Layout, p: Pass, work: Work)
    requires l.Valid() && Turn(l, p, work).Continued?
    ensures var q := Turn(l, p, work).pass;
      && q.completed != [] && q.completed == p.completed + [Last(q)]
      && HeadIn(p.mem, l, p.dev.nextAvail, 0) == Ok(Last(q).0)
      && Adds(p.mem, WalkChain(TableOf(p.mem, l), Last(q).0), Last(q).1, p.stats, q.stats)
  {
    hide TableOf, HeadIn, PendingIn, Serve, Complete, WalkChain, Adds;
    var head := HeadIn(p.mem, l, p.dev.nextAvail, 0).value;
    ServeAdds(p.mem, TableOf(p.mem, l), head, work, p.requests, p.stats);
  }

  lemma TotalMore(done: seq<(u16, u32)>, more: (u16, u32))
    ensures Total(done + [more]) == Total(done) + more.1
  {
    assert (done + [more])[..|done|] == done;
  }

  lemma CountsStep(l: Layout, p: Pass, q: Pass, work: Work, n: nat)
    requires l.Valid() && HasTaken(l, p, q, n) && Turn(l, q, work).Continued?
    requires Counts(p.mem, l, p.dev.nextAvail, q.completed, q.stats)
    ensures var q' := Turn(l, q, work).pass; Counts(p.mem, l, p.dev.nextAvail, q'.completed, q'.stats)
  {
    hide TableOf, HeadIn, Turn, WalkChain, IsInput, Wrap, Took, Asks, Total;
    var m, a, q' := p.mem, p.dev.nextAvail, Turn(l, q, work).pass;
    TableSame(m, q.mem, l);
    HeadLater(m, q.mem, l, a, n);
    TurnAdds(l, q, work);
    TotalMore(q.completed, Last(q'));
    AsksSame(m, q.mem, Found(m, l, a, n));
    forall k | 0 <= k <= n ensures HeadIn(m, l, a, k) == Ok(q'.completed[k].0) {
      assert k < n ==> q'.completed[k] == q.completed[k];
    }
  }

  /** However many chains a pass over any region has served, its counters are theirs: as many chains as it
      completed, the descriptors their walks yielded, the bytes of the requests, and the bytes reported. */
  lemma {:induction false} PassCounts(l: Layout, p: Pass, work: Work, n: nat)
    requires l.Valid() && Steady(p.mem, l, p.dev.nextAvail, n) && After(l, p, work, n).Some?
    requires p.completed == [] && p.stats == ProcessStats(0, 0, 0, 0, p.stats.rejected)
    ensures var q := After(l, p, work, n).value;
      |q.completed| == n && Counts(p.mem, l, p.dev.nextAvail, q.completed, q.stats)
  {
    hide HeadIn, TableOf, SteadyChain, Turn, IsInput, HasTaken, Took;
    AfterTakes(l, p, work, n);
    CompletedMany(l, p, After(l, p, work, n).value, n);
    if n > 0 {
      hide Counts;
      var q := After(l, p, work, n - 1).value;
      PassCounts(l, p, work, n - 1);
      AfterTakes(l, p, work, n - 1);
      CountsStep(l, p, q, work, n - 1);
    }
  }

  lemma CompletedMany(l: Layout, p: Pass, q: Pass, n: nat)
    requires l.Valid() && HasTaken(l, p, q, n)
    ensures |q.completed| == n
  {
  }

  // ---------------------------------------------------------------- a whole pass

  /** A pass that took the region from `m` to `m'` and the device from `dev` to `dev'` published these completions and
      returned these counters. */
  ghost predicate Tallies(l: Layout, m: seq<byte>, m': seq<byte>, dev: DeviceState, dev': DeviceState,
                          done: seq<(u16, u32)>, stats: ProcessStats)
    requires l.Valid()
  {
    && Counts(m, l, dev.nextAvail, done, stats)
    && dev' == DeviceState(Wrap(dev.nextAvail + |done|), Wrap(dev.nextUsed + |done|), Wrap(dev.numAdded + |done|))
    && (RingsIn(m, l) ==> |done| == Pending(m, l, dev) && |m'| == |m| && InUsedRing(l, m, m', dev, done))
  }

  /** Unless a chain makes the device write into the rings, the used ring now holds the completions, as far back as
      it reaches. */
  ghost predicate InUsedRing(l: Layout, m: seq<byte>, m': seq<byte>, dev: DeviceState, done: seq<(u16, u32)>)
    requires l.Valid() && RingsIn(m, l) && |m'| == |m|
  {
    Harmless(m, l, dev.nextAvail, |done|) && |done| <= l.queueSize ==>
      forall k | 0 <= k < |done| :: View(m', l).usedRing[UsedSlot(l, dev.nextUsed, k)] == done[k]
  }

  lemma CountsUpTo(l: Layout, p: Pass, work: Work, i: nat, n: nat)
    requires l.Valid() && Steady(p.mem, l, p.dev.nextAvail, n) && i <= n && After(l, p, work, i).Some?
    requires p.completed == [] && p.stats == ProcessStats(0, 0, 0, 0, p.stats.rejected)
    ensures var q := After(l, p, work, i).value;
      && |q.completed| == i && Counts(p.mem, l, p.dev.nextAvail, q.completed, q.stats)
      && q.dev == DeviceState(Wrap(p.dev.nextAvail + i), Wrap(p.dev.nextUsed + i), Wrap(p.dev.numAdded + i))
  {
    hide HeadIn, TableOf, SteadyChain, IsInput, Counts, After;
    PassCounts(l, p, work, i);
    AfterTakes(l, p, work, i);
  }

  lemma RingAfter(l: Layout, p: Pass, work: Work, n: nat)
    requires l.Valid() && RingsIn(p.mem, l) && p.completed == [] && |Drain(l, p, work, n).completed| == n
    ensures var q := Drain(l, p, work, n); InUsedRing(l, p.mem, q.mem, p.dev, q.completed)
  {
    hide View, HarmlessChain, Drain, UsedSlot;
    if Harmless(p.mem, l, p.dev.nextAvail, n) && n <= l.queueSize {
      forall k | 0 <= k < n
        ensures View(Drain(l, p, work, n).mem, l).usedRing[UsedSlot(l, p.dev.nextUsed, k)]
          == Drain(l, p, work, n).completed[k]
      {
        UsedRingAfterDrain(l, p, work, n, k);
      }
    }
  }
}
