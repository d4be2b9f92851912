/** What the invariant of a run means for its users. */
module Results {
  import opened Words
  import opened Memory
  import opened VirtqLayout
  import opened Rings
  import opened ChainWalk
  import opened Acceptance
  import opened DriverSpec
  import opened DriverFacts
  import opened DeviceSide
  import D = DeviceSpec
  import opened ScatterGather
  import opened Steadiness
  import Tally
  import opened Passes
  import opened RoundTrip
  import opened Queue
  import opened Runs

  // ---------------------------------------------------------------- nothing is lost

  /** Processing and then collecting answers every chain published so far, and gives the driver all of its
      descriptors back. */
  lemma PassAndCollect(l: Layout, w: World, work: D.Work)
    requires Good(l, w)
    ensures Good(l, ProcessWorld(l, w, work))
    ensures var w' := CollectWorld(l, ProcessWorld(l, w, work));
      && Good(l, w')
      && w'.log.published == w.log.published
      && |w'.log.collected| == |w.log.published|
      && (forall k | 0 <= k < |w.log.published| ::
            w.log.published[k].indices != [] && w'.log.collected[k].0 == w.log.published[k].indices[0])
      && w'.drv.outstanding == map[] && |w'.drv.free| == l.queueSize
  {
    var w1 := ProcessWorld(l, w, work);
    var w' := CollectWorld(l, w1);
    ProcessKeeps(l, w, work);
    CollectStep(l, w1);
    hide ProcessWorld, View, Collect, Counters, Slots, Written;
    AllFree(l.queueSize, w'.drv, w'.log.published);
  }

  lemma AllFree(qs: nat, drv: DriverState, published: seq<Chain>)
    requires qs <= 32768 && Owned(qs, drv, published, |published|)
    ensures drv.outstanding == map[] && |drv.free| == qs
  {
    if h :| h in drv.outstanding {
      assert false;
    }
    assert drv.outstanding.Keys == {};
    Pigeonhole(drv.free, qs);
    var all := UpTo(qs);
    var free := SetOf(drv.free);
    SubsetSize(all, free);
  }

  /** With everything collected, every descriptor is free. */
  lemma CaughtUpFree(l: Layout, w: World)
    requires Good(l, w) && |w.log.collected| == |w.log.published|
    ensures |w.drv.free| == l.queueSize
  {
    hide View, Partition, Fifo, Slots, Written, Counters;
    AllFree(l.queueSize, w.drv, w.log.published);
  }

  // ---------------------------------------------------------------- requests and responses, end to end

  function ReadableOf(buffers: seq<Buffer>): D.Buffers {
    if buffers == [] then []
    else (if buffers[0].deviceWritable then [] else [(buffers[0].addr, buffers[0].len)]) + ReadableOf(buffers[1..])
  }

  function WritableOf(buffers: seq<Buffer>): D.Buffers {
    if buffers == [] then []
    else (if buffers[0].deviceWritable then [(buffers[0].addr, buffers[0].len)] else []) + WritableOf(buffers[1..])
  }

  lemma {:induction false} SplitOfBuffers(ds: seq<Descriptor>)
    ensures D.Readable(ds) == ReadableOf(BuffersOf(ds)) && D.Writable(ds) == WritableOf(BuffersOf(ds))
  {
    if ds != [] {
      SplitOfBuffers(ds[1..]);
      assert BuffersOf(ds)[0] == BufferOf(ds[0]) && BuffersOf(ds)[1..] == BuffersOf(ds[1..]);
    }
  }

  /** The walk refuses a chain whose buffers hold 2^32 bytes or more. */
  predicate Accepted(c: Chain) {
    TotalLength(c.buffers) < 0x1_0000_0000
  }

  function Reads(c: Chain): D.Buffers {
    if Accepted(c) then ReadableOf(c.buffers) else []
  }

  function Writes(c: Chain): D.Buffers {
    if Accepted(c) then WritableOf(c.buffers) else []
  }

  /** What these chains ask, with the contents the region has now. */
  ghost function Requests(m: seq<byte>, chains: seq<Chain>): seq<seq<byte>> {
    if chains == [] then []
    else
      var c := chains[|chains| - 1];
      Requests(m, chains[..|chains| - 1]) + (if Accepted(c) then [RequestIn(m, Reads(c))] else [])
  }

  /** Readable buffers lie outside the rings, and nothing the device writes for one chain is in a buffer of a
      later one. */
  ghost predicate Independent(l: Layout, chains: seq<Chain>) {
    && (forall k | 0 <= k < |chains| :: AllAvoid(l, Reads(chains[k])))
    && (forall j, k | 0 <= j < k < |chains| ::
          AllApart(Writes(chains[j]), Reads(chains[k])) && AllApart(Writes(chains[j]), Writes(chains[k])))
  }

  /** The `k`-th of these chains has been answered: under its head, with length 0 if it was refused, and
      otherwise with what was delivered into its writable buffers of the answer to its own request. */
  ghost predicate Answered(m: seq<byte>, m': seq<byte>, work: D.Work, chains: seq<Chain>, k: nat, done: (u16, u32))
    requires k < |chains|
  {
    && chains[k].indices != [] && done.0 == chains[k].indices[0]
    && if !Accepted(chains[k]) then done.1 == 0
       else Delivered(m, m', Writes(chains[k]), work(Requests(m, chains[..k + 1])), done.1)
  }

  /** The chains a pass will find. */
  ghost function Waiting(log: Log): seq<Chain>
    requires |log.popped| <= |log.published|
  {
    log.published[|log.popped|..]
  }

  /** Outside the rings and the writable buffers of these chains, nothing differs. */
  ghost predicate Elsewhere(l: Layout, m: seq<byte>, m': seq<byte>, chains: seq<Chain>) {
    |m'| == |m| && forall x | 0 <= x < |m| && !(l.descTable <= x < l.End())
        && (forall k | 0 <= k < |chains| :: !In(Writes(chains[k]), x)) :: m'[x] == m[x]
  }

  /** What the device finds at the `k`-th pending position is the `k`-th waiting chain. */
  lemma FindsChain(l: Layout, w: World, k: nat)
    requires Good(l, w) && |w.log.popped| + k < |w.log.published|
    ensures l.Valid() && RingsIn(w.mem, l) && |w.log.popped| <= |w.log.published|
    ensures var c, m, a := w.log.published[|w.log.popped| + k], w.mem, w.dev.nextAvail;
      && c.indices != [] && D.Head(m, l, a, k) == c.indices[0]
      && (ChainAt(m, l, a, k).error.None? <==> Accepted(c))
      && ReadableAt(m, l, a, k) == Reads(c) && WritableAt(m, l, a, k) == Writes(c)
  {
    hide View, TableOf, WalkChain, RingsInv, D.Harmless, D.Pending, ReadableOf, WritableOf, TotalLength, D.Readable,
      D.Writable, D.Head;
    InvCounters(l, w);
    PendingChains(l, w);
    WalksBack(l, w, |w.log.popped| + k);
    SplitOfBuffers(ChainAt(w.mem, l, w.dev.nextAvail, k).descs);
  }

  lemma {:induction false} AsksChains(l: Layout, w: World, n: nat)
    requires Good(l, w) && |w.log.popped| + n <= |w.log.published|
    ensures l.Valid() && RingsIn(w.mem, l)
    ensures RequestsOf(w.mem, l, w.dev.nextAvail, n) == Requests(w.mem, Waiting(w.log)[..n])
  {
    hide View, Good, ChainAt, ReadableAt, Reads, RequestIn;
    GoodParts(l, w);
    if n > 0 {
      AsksChains(l, w, n - 1);
      FindsChain(l, w, n - 1);
      var chains := Waiting(w.log)[..n];
      assert chains[..n - 1] == Waiting(w.log)[..n - 1] && chains[n - 1] == w.log.published[|w.log.popped| + n - 1];
    }
  }

  lemma GoodParts(l: Layout, w: World)
    requires Good(l, w)
    ensures l.Valid() && RingsIn(w.mem, l)
    ensures |w.log.collected| <= |w.log.completed| == |w.log.popped| <= |w.log.published|
  {
    hide View, RingsInv;
    InvCounters(l, w);
  }

  lemma WaitingUndisturbed(l: Layout, w: World)
    requires Good(l, w) && |w.log.popped| <= |w.log.published| && Independent(l, Waiting(w.log))
    ensures l.Valid() && RingsIn(w.mem, l)
    ensures Undisturbed(w.mem, l, w.dev.nextAvail, |w.log.published| - |w.log.popped|)
  {
    hide View, Good, ChainAt, ReadableAt, WritableAt, Reads, Writes, AllAvoid, AllApart, D.Head;
    GoodParts(l, w);
    var c, n, a := |w.log.popped|, |w.log.published| - |w.log.popped|, w.dev.nextAvail;
    forall k | 0 <= k < n
      ensures ReadableAt(w.mem, l, a, k) == Reads(Waiting(w.log)[k])
      ensures WritableAt(w.mem, l, a, k) == Writes(Waiting(w.log)[k])
      ensures AllAvoid(l, Writes(Waiting(w.log)[k]))
    {
      FindsChain(l, w, k);
      WritesAvoid(l, w, c + k);
    }
  }

  lemma WritesAvoid(l: Layout, w: World, k: nat)
    requires Good(l, w) && |w.log.popped| <= k < |w.log.published|
    ensures AllAvoid(l, Writes(w.log.published[k]))
  {
    hide View, RingsInv, D.Avoids;
    InvCounters(l, w);
    var c := w.log.published[k];
    assert ChainOk(l, c);
    forall b | b in WritableOf(c.buffers) ensures D.Avoids(l, b) {
      WritableAvoid(l, c.buffers, b);
    }
  }

  lemma {:induction false} WritableAvoid(l: Layout, buffers: seq<Buffer>, b: (u64, u32))
    requires AvoidRings(l, buffers) && b in WritableOf(buffers)
    ensures D.Avoids(l, b)
  {
    if !(buffers[0].deviceWritable && b == (buffers[0].addr, buffers[0].len)) {
      WritableAvoid(l, buffers[1..], b);
    }
  }

  /** Every chain that waited in `w` has been answered in `w'`. */
  ghost predicate AllAnswered(l: Layout, w: World, w': World, work: D.Work) {
    && |w.log.popped| <= |w.log.published| && w.log.completed <= w'.log.completed
    && var chains, gained := Waiting(w.log), w'.log.completed[|w.log.completed|..];
       && |gained| == |chains|
       && (forall k | 0 <= k < |chains| :: Answered(w.mem, w'.mem, work, chains, k, gained[k]))
       && Elsewhere(l, w.mem, w'.mem, chains)
  }

  /** A pass over any number of waiting chains that do not write into each other, end to end, in terms of the
      buffers the driver submitted: `work` is given, chain by chain, the contents its readable buffers had
      when the pass began; its answer arrives in the chain's own writable buffers; the completion names the
      chain and the number of bytes that arrived; and no other byte outside the rings changes. */
  lemma RequestsAndResponses(l: Layout, w: World, work: D.Work)
    requires Good(l, w) && |w.log.popped| <= |w.log.published| && Independent(l, Waiting(w.log))
    ensures l.Valid() && RingsIn(w.mem, l)
    ensures AllAnswered(l, w, ProcessWorld(l, w, work), work)
  {
    hide View, Good, D.Drain, D.Pending, Undisturbed, Serves, Answered, Elsewhere, ProcessWorld, Independent;
    GoodParts(l, w);
    PendingCount(l, w);
    WaitingUndisturbed(l, w);
    var n, chains := |w.log.published| - |w.log.popped|, Waiting(w.log);
    var q := D.Drain(l, D.StartPass(w.mem, w.dev), work, n);
    PassServes(l, D.StartPass(w.mem, w.dev), work, n);
    ServedElsewhere(l, w, q, work);
    PassIsAppended(l, w, work);
    WaitingCount(w.log);
    hide Waiting;
    forall k | 0 <= k < |chains| ensures Answered(w.mem, q.mem, work, chains, k, q.completed[k]) {
      ServedIsAnswered(l, w, q, work, k);
    }
  }

  lemma WaitingCount(log: Log)
    requires |log.popped| <= |log.published|
    ensures |Waiting(log)| == |log.published| - |log.popped|
  {
  }

  /** What the pass completes is appended to the log. */
  lemma PassIsAppended(l: Layout, w: World, work: D.Work)
    requires l.Valid() && RingsIn(w.mem, l)
    ensures var q := D.Drain(l, D.StartPass(w.mem, w.dev), work, D.Pending(w.mem, l, w.dev));
      var w', c := ProcessWorld(l, w, work), |w.log.completed|;
      w'.mem == q.mem && w.log.completed <= w'.log.completed && w'.log.completed[c..] == q.completed
  {
    hide View, D.Drain, D.Pending;
  }

  lemma ServedIsAnswered(l: Layout, w: World, q: D.Pass, work: D.Work, k: nat)
    requires Good(l, w) && |w.log.popped| + k < |w.log.published| && l.Valid() && RingsIn(w.mem, l)
    requires |q.mem| == |w.mem|
    requires Serves(l, D.StartPass(w.mem, w.dev), q, work, |w.log.published| - |w.log.popped|)
    ensures k < |q.completed| && k < |Waiting(w.log)|
    ensures Answered(w.mem, q.mem, work, Waiting(w.log), k, q.completed[k])
  {
    hide View, Good, D.Head, Delivered, ChainAt, ReadableAt, WritableAt, Reads, Writes, Requests, RequestsOf, Untouched;
    FindsChain(l, w, k);
    AsksChains(l, w, k + 1);
    assert ServedAt(w.mem, q.mem, l, w.dev.nextAvail, work, [], q.completed[k], k);
    assert [] + RequestsOf(w.mem, l, w.dev.nextAvail, k + 1) == RequestsOf(w.mem, l, w.dev.nextAvail, k + 1);
  }

  lemma ServedElsewhere(l: Layout, w: World, q: D.Pass, work: D.Work)
    requires Good(l, w) && |w.log.popped| <= |w.log.published| && l.Valid() && RingsIn(w.mem, l)
    requires |q.mem| == |w.mem|
    requires Serves(l, D.StartPass(w.mem, w.dev), q, work, |w.log.published| - |w.log.popped|)
    ensures |q.completed| == |w.log.published| - |w.log.popped|
    ensures Elsewhere(l, w.mem, q.mem, Waiting(w.log))
  {
    hide View, Good, D.Head, ServedAt, ReadableAt, WritableAt, Writes, Reads, RequestsOf, In, ChainAt;
    forall k | 0 <= k < |w.log.published| - |w.log.popped|
      ensures WritableAt(w.mem, l, w.dev.nextAvail, k) == Writes(Waiting(w.log)[k])
    {
      FindsChain(l, w, k);
    }
  }

  /** Accepted chains all of whose buffers lie in the region are not complained about. */
  lemma PassReportsNothing(l: Layout, w: World, work: D.Work)
    requires Good(l, w) && |w.log.popped| <= |w.log.published| && l.Valid() && RingsIn(w.mem, l)
    requires forall c | c in Waiting(w.log) :: Accepted(c) && InRegion(w.mem, Reads(c)) && InRegion(w.mem, Writes(c))
    ensures WholePass(l, w, work).stats.rejected == []
  {
    hide View, Good, D.Drain, D.Head, D.Pending, D.Harmless, ChainAt, ReadableAt, WritableAt, Reads, Writes, Accepted,
      InRegion;
    PendingCount(l, w);
    PendingHarmless(l, w);
    var n := |w.log.published| - |w.log.popped|;
    forall k | 0 <= k < n ensures Sound(w.mem, l, w.dev.nextAvail, k) {
      FindsChain(l, w, k);
      assert Waiting(w.log)[k] in Waiting(w.log);
    }
    PassIsClean(l, D.StartPass(w.mem, w.dev), work, n);
  }

  lemma PendingCount(l: Layout, w: World)
    requires Good(l, w)
    ensures l.Valid() && RingsIn(w.mem, l) && |w.log.popped| <= |w.log.published|
    ensures D.Pending(w.mem, l, w.dev) == |w.log.published| - |w.log.popped|
  {
    hide View, RingsInv, D.Pending, D.Harmless, D.Head;
    InvCounters(l, w);
    PendingChains(l, w);
  }

  // ---------------------------------------------------------------- what a pass counts

  function SumLengths(requests: seq<seq<byte>>): nat {
    if requests == [] then 0 else SumLengths(requests[..|requests| - 1]) + |requests[|requests| - 1]|
  }

  /** How many descriptors of these chains a walk yields: all of an accepted chain, and of a refused one those
      before the total reaches 2^32 bytes. */
  function DescriptorsWalked(chains: seq<Chain>): nat {
    if chains == [] then 0 else DescriptorsWalked(chains[..|chains| - 1]) + Walkable(chains[|chains| - 1].buffers)
  }

  /** The counters of a pass from `w` to `w'`: one chain for each completion the log gained, the descriptors walked,
      the bytes of the requests asked, and the bytes the completions report; and with every waiting chain accepted
      and inside the region, no complaint. */
  ghost predicate Counted(w: World, w': World, stats: D.ProcessStats) {
    && |w.log.popped| <= |w.log.published| && w.log.completed <= w'.log.completed
    && var chains, gained := Waiting(w.log), w'.log.completed[|w.log.completed|..];
       && stats.chains == |gained| == |chains|
       && stats.descriptors == DescriptorsWalked(chains)
       && stats.bytesRead == SumLengths(Requests(w.mem, chains))
       && stats.bytesWritten == Tally.Total(gained)
       && ((forall c | c in chains :: Accepted(c) && InRegion(w.mem, Reads(c)) && InRegion(w.mem, Writes(c)))
           ==> stats.rejected == [])
  }

  lemma SumMore(requests: seq<seq<byte>>, more: seq<byte>)
    ensures SumLengths(requests + [more]) == SumLengths(requests) + |more|
  {
    assert (requests + [more])[..|requests|] == requests;
  }

  lemma FindsCount(l: Layout, w: World, k: nat)
    requires Good(l, w) && |w.log.popped| + k < |w.log.published|
    ensures l.Valid() && RingsIn(w.mem, l)
    ensures var c, found := w.log.published[|w.log.popped| + k], Tally.Found(w.mem, l, w.dev.nextAvail, k);
      && |found.descs| == Walkable(c.buffers)
      && Tally.Asks(w.mem, found) == if Accepted(c) then |RequestIn(w.mem, Reads(c))| else 0
  {
    hide View, TableOf, WalkChain, RingsInv, D.Harmless, D.Pending, ReadableOf, WritableOf, TotalLength, D.Readable,
      D.Writable, D.Head, Walkable;
    GoodParts(l, w);
    FindsChain(l, w, k);
    WalksBack(l, w, |w.log.popped| + k);
  }

  lemma {:induction false} CountsWaiting(l: Layout, w: World, n: nat)
    requires Good(l, w) && |w.log.popped| + n <= |w.log.published|
    ensures l.Valid() && RingsIn(w.mem, l)
    ensures Tally.Descriptors(w.mem, l, w.dev.nextAvail, n) == DescriptorsWalked(Waiting(w.log)[..n])
    ensures Tally.Asked(w.mem, l, w.dev.nextAvail, n) == SumLengths(Requests(w.mem, Waiting(w.log)[..n]))
  {
    hide View, Good, Tally.Found, Tally.Asks, Reads, RequestIn, Walkable;
    GoodParts(l, w);
    if n > 0 {
      CountsWaiting(l, w, n - 1);
      FindsCount(l, w, n - 1);
      var chains := Waiting(w.log)[..n];
      assert chains[..n - 1] == Waiting(w.log)[..n - 1] && chains[n - 1] == w.log.published[|w.log.popped| + n - 1];
      CountsLast(w.mem, chains);
      hide DescriptorsWalked, SumLengths, Requests, Waiting, Accepted;
    }
  }

  lemma CountsLast(m: seq<byte>, chains: seq<Chain>)
    requires chains != []
    ensures var front, c := chains[..|chains| - 1], chains[|chains| - 1];
      && DescriptorsWalked(chains) == DescriptorsWalked(front) + Walkable(c.buffers)
      && SumLengths(Requests(m, chains))
        == SumLengths(Requests(m, front)) + if Accepted(c) then |RequestIn(m, Reads(c))| else 0
  {
    hide Walkable, Accepted, Reads, RequestIn;
    var front, c := chains[..|chains| - 1], chains[|chains| - 1];
    SumMore(Requests(m, front), RequestIn(m, Reads(c)));
    assert Requests(m, front) + [] == Requests(m, front);
  }

  /** The counters a pass returns are those of the chains that waited and of the completions it added. */
  lemma PassCounted(l: Layout, w: World, work: D.Work)
    requires Good(l, w)
    ensures l.Valid() && RingsIn(w.mem, l) && Counted(w, ProcessWorld(l, w, work), WholePass(l, w, work).stats)
  {
    hide View, Good, D.Drain, D.Pending, D.Harmless, D.Steady, D.After, Accepted, Reads, Writes, InRegion, ProcessWorld,
      DescriptorsWalked, Requests, Tally.Asked, Tally.Descriptors, Tally.Total, D.HeadIn;
    GoodParts(l, w);
    PendingCount(l, w);
    PendingHarmless(l, w);
    var n, p, chains := |w.log.published| - |w.log.popped|, D.StartPass(w.mem, w.dev), Waiting(w.log);
    HarmlessIsSteady(w.mem, l, w.dev.nextAvail, n);
    AfterDrains(l, p, work, n);
    Tally.PassCounts(l, p, work, n);
    CountsWaiting(l, w, n);
    PassIsAppended(l, w, work);
    WaitingCount(w.log);
    assert chains[..n] == chains;
    if forall c | c in chains :: Accepted(c) && InRegion(w.mem, Reads(c)) && InRegion(w.mem, Writes(c)) {
      PassReportsNothing(l, w, work);
    }
  }

  // ---------------------------------------------------------------- every run

  /** What a pass from `w` reports for the `k`-th chain it finds, whatever the chains overlap: nothing if the
      chain is refused, and otherwise what could be stored of the answer to the request that its readable
      buffers held when its turn came. */
  ghost predicate ChainReported(l: Layout, w: World, work: D.Work, k: nat, c: Chain, len: nat)
    requires l.Valid() && RingsIn(w.mem, l)
  {
    var q := D.Drain(l, D.StartPass(w.mem, w.dev), work, k);
    if !Accepted(c) then len == 0
    else
      var response := work(q.requests + [RequestIn(q.mem, Reads(c))]);
      exists failure: Option<MemError> :: Ends(Writes(c), |w.mem|, |response|, len, failure)
  }

  lemma PassReportsChains(l: Layout, w: World, work: D.Work, k: nat)
    requires Good(l, w) && |w.log.completed| <= k < |w.log.published|
    ensures l.Valid() && RingsIn(w.mem, l)
    ensures var w' := ProcessWorld(l, w, work);
      && k < |w'.log.completed|
      && ChainReported(l, w, work, k - |w.log.completed|, w.log.published[k], w'.log.completed[k].1)
  {
    hide View, Good, D.Drain, D.Head, D.Pending, D.Harmless, ChainAt, ReadableAt, WritableAt, Reads, Writes, Accepted,
      Ends, RequestIn;
    GoodParts(l, w);
    PendingCount(l, w);
    PendingHarmless(l, w);
    FindsChain(l, w, k - |w.log.popped|);
    PassReports(l, D.StartPass(w.mem, w.dev), work, |w.log.published| - |w.log.popped|, k - |w.log.popped|);
  }

  lemma PendingHarmless(l: Layout, w: World)
    requires Good(l, w)
    ensures l.Valid() && RingsIn(w.mem, l) && |w.log.popped| <= |w.log.published|
    ensures D.Harmless(w.mem, l, w.dev.nextAvail, |w.log.published| - |w.log.popped|)
  {
    hide View, RingsInv, D.Pending, D.Harmless, D.Head;
    InvCounters(l, w);
    PendingChains(l, w);
  }

  /** The log only grows, and only a pass completes chains. */
  lemma LogGrows(l: Layout, eventIdx: bool, w: World, op: Op)
    requires Good(l, w) && Honest(l, op)
    ensures var w' := Step(l, eventIdx, w, op);
      && w.log.published <= w'.log.published && w.log.completed <= w'.log.completed
      && (!op.Process? ==> w'.log.completed == w.log.completed)
      && (op.Process? ==> w'.log.published == w.log.published)
  {
    hide View, Inv, SubmitMem, WholePass, Collect, Put, Rearmed, Patch;
    StepKeeps(l, eventIdx, w, op);
  }

  /** The `i`-th operation of the run is the pass that completed chain number `k`, which is `c`. */
  ghost predicate CompletedBy(l: Layout, eventIdx: bool, w0: World, ops: seq<Op>, i: nat, k: nat, c: Chain, len: nat)
    requires Good(l, w0) && (forall op | op in ops :: Honest(l, op)) && i < |ops|
  {
    var w := Run(l, eventIdx, w0, ops[..i]);
    GoodParts(l, w);
    && ops[i].Process?
    && |w.log.completed| <= k < |w.log.published| && w.log.published[k] == c
    && ChainReported(l, w, ops[i].work, k - |w.log.completed|, c, len)
  }

  ghost predicate ReportedBy(l: Layout, eventIdx: bool, w0: World, ops: seq<Op>, k: nat, c: Chain, len: nat)
    requires Good(l, w0) && forall op | op in ops :: Honest(l, op)
  {
    exists i :: 0 <= i < |ops| && CompletedBy(l, eventIdx, w0, ops, i, k, c, len)
  }

  lemma {:induction false} RunReports(l: Layout, eventIdx: bool, w0: World, ops: seq<Op>, k: nat)
    requires Good(l, w0) && forall op | op in ops :: Honest(l, op)
    requires |w0.log.completed| <= k < |Run(l, eventIdx, w0, ops).log.completed|
    ensures var w := Run(l, eventIdx, w0, ops);
      && k < |w.log.published|
      && ReportedBy(l, eventIdx, w0, ops, k, w.log.published[k], w.log.completed[k].1)
  {
    hide Good, Step, Honest, ChainReported;
    var n := |ops| - 1;
    var front, op := ops[..n], ops[n];
    var w1, w := Run(l, eventIdx, w0, front), Run(l, eventIdx, w0, ops);
    LogGrows(l, eventIdx, w1, op);
    GoodParts(l, w1);
    GoodParts(l, w);
    if k < |w1.log.completed| {
      RunReports(l, eventIdx, w0, front, k);
      var i :| 0 <= i < n && CompletedBy(l, eventIdx, w0, front, i, k, w1.log.published[k], w1.log.completed[k].1);
      assert front[..i] == ops[..i];
      assert CompletedBy(l, eventIdx, w0, ops, i, k, w.log.published[k], w.log.completed[k].1);
    } else {
      LastPassReports(l, eventIdx, w1, op, k);
      assert CompletedBy(l, eventIdx, w0, ops, n, k, w.log.published[k], w.log.completed[k].1);
    }
  }

  lemma LastPassReports(l: Layout, eventIdx: bool, w: World, op: Op, k: nat)
    requires Good(l, w) && Honest(l, op) && op.Process?
    requires |w.log.completed| <= k < |Step(l, eventIdx, w, op).log.completed|
    ensures l.Valid() && RingsIn(w.mem, l)
    ensures var w' := Step(l, eventIdx, w, op);
      && k < |w.log.published| && w'.log.published == w.log.published
      && ChainReported(l, w, op.work, k - |w.log.completed|, w.log.published[k], w'.log.completed[k].1)
  {
    hide Good, ProcessWorld, ChainReported, View;
    GoodParts(l, w);
    LogGrows(l, eventIdx, w, op);
    StepKeeps(l, eventIdx, w, op);
    GoodParts(l, Step(l, eventIdx, w, op));
    PassReportsChains(l, w, op.work, k);
  }

  /** The device has popped exactly the published heads, in order and without gap; each is completed once and
      in order; the driver has collected the completions in order; and what is in flight fits the queue. */
  ghost predicate InOrder(l: Layout, log: Log) {
    var p, c, g := |log.published|, |log.completed|, |log.collected|;
    && g <= c <= p <= g + l.queueSize
    && (forall k | 0 <= k < p :: log.published[k].indices != [])
    && log.popped == Heads(log.published, 0)[..c]
    && (forall k | 0 <= k < c :: log.completed[k].0 == log.published[k].indices[0])
    && log.collected == log.completed[..g]
  }

  lemma GoodIsInOrder(l: Layout, w: World)
    requires Good(l, w)
    ensures InOrder(l, w.log)
  {
    hide View, D.Harmless, Owned, PowerOfTwo, D.Head, D.Pending, Slots, Written, Counters;
    InvCounters(l, w);
    PendingChains(l, w);
    assert w.log.popped == Heads(w.log.published, 0)[..|w.log.completed|];
  }

  /** The main result. After any run of a fresh queue the log is in order, as above; each completion reports
      what a pass of the run stored for that chain; and every chain not yet collected reads back from the
      descriptor table as the buffers it was built from. */
  lemma EveryRunIsFifo(l: Layout, eventIdx: bool, mem: seq<byte>, ops: seq<Op>)
    requires l.Valid() && RingsIn(mem, l) && forall p | 0 <= p < |mem| :: mem[p] == 0
    requires forall op | op in ops :: Honest(l, op)
    ensures Good(l, NewWorld(l, mem))
    ensures var w := Run(l, eventIdx, NewWorld(l, mem), ops);
      && InOrder(l, w.log) && RingsIn(w.mem, l)
      && (forall k | 0 <= k < |w.log.completed| ::
            ReportedBy(l, eventIdx, NewWorld(l, mem), ops, k, w.log.published[k], w.log.completed[k].1))
      && (forall k | |w.log.collected| <= k < |w.log.published| :: StillThere(l, w.mem, w.log.published[k]))
  {
    hide Run, View, Good, StillThere, ReportedBy, NewWorld, Honest;
    NewIsGood(l, mem);
    NothingCompleted(l, mem);
    var w := Run(l, eventIdx, NewWorld(l, mem), ops);
    GoodParts(l, w);
    GoodIsInOrder(l, w);
    forall k | |w.log.collected| <= k < |w.log.published| ensures StillThere(l, w.mem, w.log.published[k]) {
      WalksBack(l, w, k);
    }
    forall k | 0 <= k < |w.log.completed|
      ensures ReportedBy(l, eventIdx, NewWorld(l, mem), ops, k, w.log.published[k], w.log.completed[k].1)
    {
      RunReports(l, eventIdx, NewWorld(l, mem), ops, k);
    }
  }

  lemma NothingCompleted(l: Layout, mem: seq<byte>)
    requires l.Valid()
    ensures NewWorld(l, mem).log.completed == []
  {
  }
}
