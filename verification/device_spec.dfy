/** What the device does with a region, as functions of the region's bytes. */
module DeviceSpec {
  import opened Words
  import opened Memory
  import opened VirtqLayout
  import opened Rings
  import opened ChainWalk
  import opened Fields

  datatype DeviceState = DeviceState(nextAvail: u16, nextUsed: u16, numAdded: u16)

  datatype RejectReason = Chain(error: ChainError) | Buffer(memError: MemError)

  datatype ProcessStats = ProcessStats(
    chains: nat, descriptors: nat, bytesRead: nat, bytesWritten: nat, rejected: seq<(u16, RejectReason)>)

  /** The closure `process` applies. It may keep state between calls, so its answer depends on every request
      of the pass up to the current one. */
  type Work = seq<seq<byte>> -> seq<byte>

  type Buffers = seq<(u64, u32)>

  // ---------------------------------------------------------------- buffers

  function Readable(ds: seq<Descriptor>): Buffers {
    if ds == [] then []
    else if ds[0].IsWriteOnly() then Readable(ds[1..])
    else [(ds[0].addr, ds[0].len)] + Readable(ds[1..])
  }

  function Writable(ds: seq<Descriptor>): Buffers {
    if ds == [] then []
    else if ds[0].IsWriteOnly() then [(ds[0].addr, ds[0].len)] + Writable(ds[1..])
    else Writable(ds[1..])
  }

  function Length(bs: Buffers): nat {
    if bs == [] then 0 else bs[0].1 + Length(bs[1..])
  }

  datatype Gathered = Gathered(request: seq<byte>, failures: seq<MemError>)

  /** The readable buffers that lie in the region, joined in order; the others are reported. */
  function Gather(m: seq<byte>, bs: Buffers): Gathered {
    if bs == [] then Gathered([], [])
    else
      var (addr, len) := bs[0];
      var rest := Gather(m, bs[1..]);
      if addr + len <= |m| then Gathered(m[addr..addr + len] + rest.request, rest.failures)
      else Gathered(rest.request, [OutOfBounds(addr, len, |m|)] + rest.failures)
  }

  datatype Scattered = Scattered(mem: seq<byte>, written: nat, failure: Option<MemError>)

  /** The response laid over the writable buffers in order, up to the first one it cannot be stored in. */
  function Scatter(m: seq<byte>, bs: Buffers, response: seq<byte>): (s: Scattered)
    ensures |s.mem| == |m| && s.written <= Length(bs) && s.written <= |response|
    decreases |bs|
  {
    if bs == [] || response == [] then Scattered(m, 0, None)
    else
      var (addr, len) := bs[0];
      var n := Min(len, |response|);
      if addr + n > |m| then Scattered(m, 0, Some(OutOfBounds(addr, n, |m|)))
      else
        var rest := Scatter(Patch(m, addr, response[..n]), bs[1..], response[n..]);
        rest.(written := n + rest.written)
  }

  // ---------------------------------------------------------------- one chain

  /** The region after completion number `n` has been published. */
  function PutUsed(m: seq<byte>, l: Layout, n: u16, head: u16, len: u32): (r: seq<byte>)
    requires l.Valid() && RingsIn(m, l)
    ensures |r| == |m|
  {
    var slot := Slot(n, l.queueSize);
    Put(Put(Put(m, l, UsedId(slot), head), l, UsedLen(slot), len), l, UsedIdx, Wrap(n + 1))
  }

  datatype Served = Served(mem: seq<byte>, len: u32, requests: seq<seq<byte>>, stats: ProcessStats)

  function Rejections(head: u16, failures: seq<MemError>): (r: seq<(u16, RejectReason)>)
    ensures |r| == |failures|
  {
    seq(|failures|, i requires 0 <= i < |failures| => (head, Buffer(failures[i])))
  }

  /** What serving the chain at `head` does before its completion is published. */
  function Serve(m: seq<byte>, t: Table, head: u16, work: Work, requests: seq<seq<byte>>, stats: ProcessStats)
    : (s: Served)
    ensures |s.mem| == |m|
  {
    var w := WalkChain(t, head);
    var stats1 := stats.(descriptors := stats.descriptors + |w.descs|, chains := stats.chains + 1);
    match w.error
    case Some(e) =>
      Served(m, 0, requests, stats1.(rejected := stats.rejected + [(head, Chain(e))]))
    case None =>
      var g := Gather(m, Readable(w.descs));
      var requests' := requests + [g.request];
      var s := Scatter(m, Writable(w.descs), work(requests'));
      WrittenFits(t, Start(t, head));
      Served(s.mem, s.written, requests', stats1.(
        bytesRead := stats.bytesRead + |g.request|,
        bytesWritten := stats.bytesWritten + s.written,
        rejected := stats.rejected + Rejections(head, g.failures)
          + (if s.failure.Some? then [(head, Buffer(s.failure.value))] else [])))
  }

  /** The writable buffers of a walked chain hold fewer than 2^32 bytes, so a `u32` can count them. */
  lemma {:induction false} WrittenFits(t: Table, c: Cursor)
    ensures c.yieldedBytes + Length(Writable(Walk(t, c).descs)) < 0x1_0000_0000
    decreases Steps(c)
  {
    var (c', item) := Advance(t, c);
    if item.Some? && item.value.Ok? {
      WrittenFits(t, c');
      assert Walk(t, c).descs[1..] == Walk(t, c').descs;
    }
  }

  // ---------------------------------------------------------------- a whole pass

  /** A pass in progress. `completed` lists the `(head, len)` pairs published so far. */
  datatype Pass = Pass(
    mem: seq<byte>, dev: DeviceState, stats: ProcessStats, requests: seq<seq<byte>>,
    completed: seq<(u16, u32)>)

  /** The head of the `k`-th chain from position `nextAvail` on. */
  function Head(m: seq<byte>, l: Layout, nextAvail: u16, k: nat): u16
    requires l.Valid() && RingsIn(m, l)
  {
    View(m, l).availRing[Slot(Wrap(nextAvail + k), l.queueSize)]
  }

  /** Take the next chain, serve it and publish its completion. */
  function ServeNext(l: Layout, p: Pass, work: Work): (q: Pass)
    requires l.Valid() && RingsIn(p.mem, l)
    ensures |q.mem| == |p.mem|
  {
    var head := Head(p.mem, l, p.dev.nextAvail, 0);
    var s := Serve(p.mem, TableOf(p.mem, l), head, work, p.requests, p.stats);
    Pass(
      PutUsed(s.mem, l, p.dev.nextUsed, head, s.len),
      DeviceState(Wrap(p.dev.nextAvail + 1), Wrap(p.dev.nextUsed + 1), Wrap(p.dev.numAdded + 1)),
      s.stats, s.requests, p.completed + [(head, s.len)])
  }

  function Drain(l: Layout, p: Pass, work: Work, n: nat): (q: Pass)
    requires l.Valid() && RingsIn(p.mem, l)
    ensures |q.mem| == |p.mem|
  {
    if n == 0 then p else ServeNext(l, Drain(l, p, work, n - 1), work)
  }

  function StartPass(m: seq<byte>, dev: DeviceState): Pass {
    Pass(m, dev, ProcessStats(0, 0, 0, 0, []), [], [])
  }

  /** How many chains the driver has made available that the device has not taken. */
  function Pending(m: seq<byte>, l: Layout, dev: DeviceState): u16
    requires l.Valid() && RingsIn(m, l)
  {
    Wrap(View(m, l).availIdx - dev.nextAvail)
  }

  // ---------------------------------------------------------------- a pass over any region

  /** What `available` reads: the wrapped distance from the device's position to `avail.idx`. */
  function PendingIn(m: seq<byte>, l: Layout, dev: DeviceState): (r: Result<u16, MemError>)
    requires l.Valid()
  {
    match LoadShort(m, l, AvailIdx)
    case Err(e) => Err(e)
    case Ok(v) => Ok(Wrap(v - dev.nextAvail))
  }

  lemma PendingShown(m: seq<byte>, l: Layout, dev: DeviceState)
    requires l.Valid() && RingsIn(m, l)
    ensures PendingIn(m, l, dev) == Ok(Pending(m, l, dev))
  {
    hide Num, Wrap, LoadShort, View;
    ViewScalars(m, l);
  }

  /** The head of the `k`-th chain from position `nextAvail` on, if its slot can be read. */
  function HeadIn(m: seq<byte>, l: Layout, nextAvail: u16, k: nat): (r: Result<u16, MemError>)
    requires l.Valid()
    ensures RingsIn(m, l) ==> r == Ok(Head(m, l, nextAvail, k))
  {
    LoadShort(m, l, AvailSlot(Slot(Wrap(nextAvail + k), l.queueSize)))
  }

  /** What `add_used` leaves behind: the region, the device and the refused store if there is one. */
  datatype Completed = Completed(mem: seq<byte>, dev: DeviceState, error: Option<MemError>)

  function Complete(m: seq<byte>, l: Layout, dev: DeviceState, head: u16, len: u32): (c: Completed)
    requires l.Valid()
    ensures |c.mem| == |m|
  {
    Widths();
    var slot := Slot(dev.nextUsed, l.queueSize);
    var element := StoreAll(m, l, [(UsedId(slot), head), (UsedLen(slot), len)]);
    if element.error.Some? then Completed(element.mem, dev, element.error)
    else
      var dev' := dev.(nextUsed := Wrap(dev.nextUsed + 1), numAdded := Wrap(dev.numAdded + 1));
      var index := StoreAll(element.mem, l, [(UsedIdx, dev'.nextUsed)]);
      Completed(index.mem, dev', index.error)
  }

  /** One turn of the loop of `process`: nothing is left, an access is refused, or a chain is served. */
  datatype Turned = Finished | Refused(error: MemError, mem: seq<byte>, dev: DeviceState) | Continued(pass: Pass)

  function Turn(l: Layout, p: Pass, work: Work): Turned
    requires l.Valid()
  {
    match PendingIn(p.mem, l, p.dev)
    case Err(e) => Refused(e, p.mem, p.dev)
    case Ok(pending) =>
      if pending == 0 then Finished
      else match HeadIn(p.mem, l, p.dev.nextAvail, 0)
        case Err(e) => Refused(e, p.mem, p.dev)
        case Ok(head) =>
          var s := Serve(p.mem, TableOf(p.mem, l), head, work, p.requests, p.stats);
          var c := Complete(s.mem, l, p.dev.(nextAvail := Wrap(p.dev.nextAvail + 1)), head, s.len);
          if c.error.Some? then Refused(c.error.value, c.mem, c.dev)
          else Continued(Pass(c.mem, c.dev, s.stats, s.requests, p.completed + [(head, s.len)]))
  }

  /** The pass after `n` turns that served a chain, if there were that many. */
  function After(l: Layout, p: Pass, work: Work, n: nat): (r: Option<Pass>)
    requires l.Valid()
  {
    if n == 0 then Some(p)
    else match After(l, p, work, n - 1)
      case None => None
      case Some(q) => (match Turn(l, q, work) case Continued(q') => Some(q') case _ => None)
  }

  /** The pass serves `n` chains and ends with the given result, region and device. */
  ghost predicate EndsAfter(l: Layout, p: Pass, work: Work, n: nat, r: Result<ProcessStats, MemError>,
                            mem: seq<byte>, dev: DeviceState)
    requires l.Valid()
  {
    match After(l, p, work, n)
    case None => false
    case Some(q) =>
      match Turn(l, q, work)
      case Finished => r == Ok(q.stats) && mem == q.mem && dev == q.dev
      case Refused(e, m, d) => r == Err(e) && mem == m && dev == d
      case Continued(_) => false
  }

  // ---------------------------------------------------------------- what a pass reads of the rings

  /** The bytes of the rings a pass depends on: the descriptor table, `avail.idx` and the avail slots. */
  predicate IsInput(l: Layout, p: nat) {
    l.descTable <= p < l.availRing || l.availRing + 2 <= p < l.availRing + 4 + 2 * l.queueSize
  }

  ghost predicate SameInputs(m: seq<byte>, m': seq<byte>, l: Layout) {
    |m| == |m'| && forall p | 0 <= p < |m| && IsInput(l, p) :: m'[p] == m[p]
  }

  /** The buffer contains none of those bytes. */
  predicate SparesInputs(l: Layout, b: (u64, u32)) {
    b.1 == 0
    || (&& (b.0 + b.1 <= l.descTable || l.availRing <= b.0)
        && (b.0 + b.1 <= l.availRing + 2 || l.availRing + 4 + 2 * l.queueSize <= b.0))
  }

  /** None of the next `n` chains asks the device to write over what the pass reads. */
  ghost predicate Steady(m: seq<byte>, l: Layout, nextAvail: u16, n: nat)
    requires l.Valid()
  {
    forall k | 0 <= k < n :: SteadyChain(l, TableOf(m, l), HeadIn(m, l, nextAvail, k))
  }

  ghost predicate SteadyChain(l: Layout, t: Table, head: Result<u16, MemError>) {
    head.Ok? ==>
      var w := WalkChain(t, head.value);
      w.error.None? ==> forall b | b in Writable(w.descs) :: SparesInputs(l, b)
  }

  // ---------------------------------------------------------------- buffers that avoid the rings

  predicate Avoids(l: Layout, b: (u64, u32)) {
    b.1 == 0 || b.0 + b.1 <= l.descTable || l.End() <= b.0
  }

  /** None of the next `n` chains asks the device to write into the rings. */
  ghost predicate Harmless(m: seq<byte>, l: Layout, nextAvail: u16, n: nat)
    requires l.Valid() && RingsIn(m, l)
  {
    forall k | 0 <= k < n :: HarmlessChain(l, TableOf(m, l), Head(m, l, nextAvail, k))
  }

  ghost predicate HarmlessChain(l: Layout, t: Table, head: u16) {
    var w := WalkChain(t, head);
    w.error.None? ==> forall b | b in Writable(w.descs) :: Avoids(l, b)
  }
}
