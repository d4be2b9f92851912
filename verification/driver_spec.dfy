/** What the driver does with a region and its own bookkeeping, as functions of both. */
module DriverSpec {
  import opened Words
  import opened Memory
  import opened VirtqLayout
  import opened Rings
  import opened Fields
  import opened Acceptance

  datatype Buffer = Buffer(addr: u64, len: u32, deviceWritable: bool)

  datatype DriverState = DriverState(
    availIdx: u16, lastKick: u16, lastUsed: u16, free: seq<u16>, outstanding: map<u16, seq<u16>>)

  // ---------------------------------------------------------------- add_chain

  /** What a caller of `add_chain` must respect: readable buffers precede writable ones. */
  predicate WellOrdered(buffers: seq<Buffer>) {
    && buffers != []
    && forall i | 0 <= i < |buffers| - 1 :: buffers[i].deviceWritable ==> buffers[i + 1].deviceWritable
  }

  /** The next `n` descriptors the free list hands out. */
  function Taken(free: seq<u16>, n: nat): (indices: seq<u16>)
    requires n <= |free|
    ensures |indices| == n
  {
    seq(n, i requires 0 <= i < n => free[|free| - 1 - i])
  }

  /** The `i`-th descriptor of a chain over `buffers` that occupies `indices`. */
  function DescFor(indices: seq<u16>, buffers: seq<Buffer>, i: nat): (d: Descriptor)
    requires i < |buffers| == |indices|
    ensures d.IsWriteOnly() <==> buffers[i].deviceWritable
    ensures d.HasNext() <==> i + 1 < |buffers|
    ensures !d.IsIndirect()
  {
    var last := i + 1 == |buffers|;
    Descriptor(buffers[i].addr, buffers[i].len,
               (if buffers[i].deviceWritable then F_WRITE else 0) + (if last then 0 else F_NEXT),
               if last then 0 else indices[i + 1])
  }

  function PutDesc(m: seq<byte>, l: Layout, at: nat, d: Descriptor): (r: seq<byte>)
    requires l.Valid() && RingsIn(m, l) && at < l.queueSize
    ensures |r| == |m|
  {
    Put(Put(Put(Put(m, l, DescAddr(at), d.addr), l, DescLen(at), d.len), l, DescFlags(at), d.flags),
        l, DescNext(at), d.next)
  }

  /** The region after the first `n` descriptors of a chain have been written. */
  function PutChain(m: seq<byte>, l: Layout, indices: seq<u16>, buffers: seq<Buffer>, n: nat): (r: seq<byte>)
    requires l.Valid() && RingsIn(m, l) && n <= |buffers| == |indices|
    requires forall i | 0 <= i < |indices| :: indices[i] < l.queueSize
    ensures |r| == |m|
  {
    if n == 0 then m
    else PutDesc(PutChain(m, l, indices, buffers, n - 1), l, indices[n - 1], DescFor(indices, buffers, n - 1))
  }

  /** The region after `head` has been published as chain number `n`. */
  function PutAvail(m: seq<byte>, l: Layout, n: u16, head: u16): (r: seq<byte>)
    requires l.Valid() && RingsIn(m, l)
    ensures |r| == |m|
  {
    Put(Put(m, l, AvailSlot(Slot(n, l.queueSize)), head), l, AvailIdx, Wrap(n + 1))
  }

  /** The driver after publishing a chain of `n` descriptors. */
  function Publish(d: DriverState, n: nat): DriverState
    requires 0 < n <= |d.free|
  {
    var indices := Taken(d.free, n);
    d.(availIdx := Wrap(d.availIdx + 1), free := d.free[..|d.free| - n],
       outstanding := d.outstanding[indices[0] := indices])
  }

  /** The stores that write the first `n` descriptors of a chain, in order. */
  function ChainStores(l: Layout, indices: seq<u16>, buffers: seq<Buffer>, n: nat): (s: seq<(Field, nat)>)
    requires l.Valid() && n <= |buffers| == |indices|
    requires forall i | 0 <= i < |indices| :: indices[i] < l.queueSize
    ensures AllStorable(l, s)
  {
    if n == 0 then []
    else ChainStores(l, indices, buffers, n - 1) + DescStores(l, indices[n - 1], DescFor(indices, buffers, n - 1))
  }

  function DescStores(l: Layout, at: nat, d: Descriptor): (s: seq<(Field, nat)>)
    requires l.Valid() && at < l.queueSize
    ensures AllStorable(l, s)
  {
    Widths();
    [(DescAddr(at), d.addr), (DescLen(at), d.len), (DescFlags(at), d.flags), (DescNext(at), d.next)]
  }

  /** What `add_chain` leaves behind once it has its descriptors: the region, the counter of published chains
      and the refused store if there is one. */
  datatype Publication = Publication(mem: seq<byte>, availIdx: u16, error: Option<MemError>)

  /** Descriptors first, then the ring slot, and the index that makes the chain visible last. */
  function WriteAll(m: seq<byte>, l: Layout, availIdx: u16, indices: seq<u16>, buffers: seq<Buffer>): Publication
    requires l.Valid() && 0 < |buffers| == |indices|
    requires forall i | 0 <= i < |indices| :: indices[i] < l.queueSize
  {
    Widths();
    var chain := StoreAll(m, l, ChainStores(l, indices, buffers, |buffers|));
    if chain.error.Some? then Publication(chain.mem, availIdx, chain.error)
    else
      var slot := StoreAll(chain.mem, l, [(AvailSlot(Slot(availIdx, l.queueSize)), indices[0])]);
      if slot.error.Some? then Publication(slot.mem, availIdx, slot.error)
      else
        var index := StoreAll(slot.mem, l, [(AvailIdx, Wrap(availIdx + 1))]);
        Publication(index.mem, Wrap(availIdx + 1), index.error)
  }

  // ---------------------------------------------------------------- collect_used

  /** The driver after taking one completion for `id`. */
  function Retire(d: DriverState, id: u16): DriverState {
    var d1 := d.(lastUsed := Wrap(d.lastUsed + 1));
    if id in d.outstanding then d1.(free := d.free + d.outstanding[id], outstanding := d.outstanding - {id})
    else d1
  }

  datatype Collecting = Collecting(driver: DriverState, out: seq<(u16, u32)>)

  function CollectOne(used: seq<(u32, u32)>, c: Collecting): Collecting
    requires used != []
  {
    var (id, len) := used[Slot(c.driver.lastUsed, |used|)];
    Collecting(Retire(c.driver, Wrap(id)), c.out + [(Wrap(id), len)])
  }

  /** The driver after taking the next `n` completions off the used ring, and what it took. */
  function Collect(used: seq<(u32, u32)>, d: DriverState, n: nat): Collecting
    requires used != []
  {
    if n == 0 then Collecting(d, []) else CollectOne(used, Collect(used, d, n - 1))
  }

  /** The element in the slot of the completion numbered `at`, if it can be read. */
  function UsedIn(m: seq<byte>, l: Layout, at: u16): Result<(u32, u32), MemError>
    requires l.Valid()
  {
    Widths();
    match LoadField(m, l, UsedId(Slot(at, l.queueSize)))
    case Err(e) => Err(e)
    case Ok(id) =>
      match LoadField(m, l, UsedLen(Slot(at, l.queueSize)))
      case Err(e) => Err(e)
      case Ok(len) => Ok((id, len))
  }

  datatype Collected = Collected(taken: Collecting, error: Option<MemError>)

  /** The same over any region: taking stops at the first element that cannot be read. */
  function CollectIn(m: seq<byte>, l: Layout, d: DriverState, n: nat): Collected
    requires l.Valid()
  {
    if n == 0 then Collected(Collecting(d, []), None)
    else
      var c := CollectIn(m, l, d, n - 1);
      if c.error.Some? then c
      else match UsedIn(m, l, c.taken.driver.lastUsed)
        case Err(e) => Collected(c.taken, Some(e))
        case Ok((id, len)) =>
          Collected(Collecting(Retire(c.taken.driver, Wrap(id)), c.taken.out + [(Wrap(id), len)]), None)
  }

  // ---------------------------------------------------------------- conservation of descriptors

  /** Every descriptor is either free or belongs to exactly one outstanding chain. */
  ghost predicate Partition(qs: nat, free: seq<u16>, outstanding: map<u16, seq<u16>>) {
    && Distinct(free)
    && (forall x | x in free :: x < qs)
    && (forall h | h in outstanding :: OwnedList(qs, free, h, outstanding[h]))
    && (forall h, k | h in outstanding && k in outstanding && h != k :: Disjoint(outstanding[h], outstanding[k]))
    && (forall x: u16 | x < qs :: x in free || exists h :: h in outstanding && x in outstanding[h])
  }

  ghost predicate OwnedList(qs: nat, free: seq<u16>, head: u16, list: seq<u16>) {
    && list != [] && list[0] == head && Distinct(list)
    && (forall x | x in list :: x < qs) && Disjoint(list, free)
  }

  ghost predicate Disjoint(a: seq<u16>, b: seq<u16>) {
    forall x | x in a :: x !in b
  }
}
