/** What the driver keeps: its descriptors, and the chains it has written. */
module DriverFacts {
  import opened Words
  import opened VirtqLayout
  import opened Rings
  import opened Fields
  import opened Acceptance
  import opened DriverSpec

  // ---------------------------------------------------------------- descriptors are conserved

  /** `free` is what stays in front, and `taken` what the free list handed out of its end. */
  lemma TakenSplits(free: seq<u16>, n: nat)
    requires n <= |free| && Distinct(free)
    ensures var taken, rest := Taken(free, n), free[..|free| - n];
      && Distinct(taken) && Distinct(rest) && Disjoint(taken, rest)
      && forall x :: x in free <==> x in taken || x in rest
  {
    var taken, rest := Taken(free, n), free[..|free| - n];
    forall x | x in free ensures x in taken || x in rest {
      var i :| 0 <= i < |free| && free[i] == x;
      if i < |rest| {
        assert rest[i] == x;
      } else {
        assert taken[|free| - 1 - i] == x;
      }
    }
  }

  /** Publishing keeps the partition, and the head of the new chain was not outstanding. */
  lemma PublishKeeps(qs: nat, d: DriverState, n: nat)
    requires 0 < n <= |d.free| && Partition(qs, d.free, d.outstanding)
    ensures var d' := Publish(d, n);
      && Partition(qs, d'.free, d'.outstanding)
      && Taken(d.free, n)[0] !in d.outstanding
  {
    var d' := Publish(d, n);
    var taken := Taken(d.free, n);
    TakenSplits(d.free, n);
    var head := taken[0];
    assert head in taken;
    forall h | h in d.outstanding ensures h != head && Disjoint(d.outstanding[h], taken)
      && OwnedList(qs, d'.free, h, d.outstanding[h])
    {
      assert OwnedList(qs, d.free, h, d.outstanding[h]);
      assert h in d.outstanding[h];
    }
    hide Taken, Distinct;
    assert OwnedList(qs, d'.free, head, taken);
    forall x: u16 | x < qs ensures x in d'.free || exists h :: h in d'.outstanding && x in d'.outstanding[h] {
      if x in taken {
        assert d'.outstanding[head] == taken;
      } else if x !in d'.free {
        var h :| h in d.outstanding && x in d.outstanding[h];
        assert d'.outstanding[h] == d.outstanding[h];
      }
    }
  }

  lemma PublishSafe(qs: nat, d: DriverState, n: nat)
    requires 0 < n <= |d.free| && Partition(qs, d.free, d.outstanding)
    ensures Partition(qs, Publish(d, n).free, Publish(d, n).outstanding)
    ensures forall i | 0 <= i < n :: Taken(d.free, n)[i] < qs
  {
    PublishKeeps(qs, d, n);
    assert forall i | 0 <= i < n :: Taken(d.free, n)[i] in d.free;
  }

  lemma JoinDistinct(a: seq<u16>, b: seq<u16>)
    requires Distinct(a) && Distinct(b) && Disjoint(b, a)
    ensures Distinct(a + b)
  {
    forall i, j | 0 <= i < j < |a + b| ensures (a + b)[i] != (a + b)[j] {
      if i < |a| <= j {
        assert a[i] in a && b[j - |a|] in b;
      }
    }
  }

  /** Retiring keeps the partition whatever id the used ring names. */
  lemma RetireKeeps(qs: nat, d: DriverState, id: u16)
    requires Partition(qs, d.free, d.outstanding)
    ensures Partition(qs, Retire(d, id).free, Retire(d, id).outstanding)
  {
    var d' := Retire(d, id);
    if id in d.outstanding {
      var list := d.outstanding[id];
      assert OwnedList(qs, d.free, id, list);
      JoinDistinct(d.free, list);
      forall h | h in d'.outstanding ensures OwnedList(qs, d'.free, h, d'.outstanding[h]) {
        assert OwnedList(qs, d.free, h, d.outstanding[h]) && Disjoint(d.outstanding[h], list);
      }
      hide OwnedList;
      forall x: u16 | x < qs ensures x in d'.free || exists h :: h in d'.outstanding && x in d'.outstanding[h] {
        if x !in d'.free {
          var h :| h in d.outstanding && x in d.outstanding[h];
          assert h in d'.outstanding && d'.outstanding[h] == d.outstanding[h];
        }
      }
    }
  }

  lemma {:induction false} CollectKeeps(qs: nat, used: seq<(u32, u32)>, d: DriverState, n: nat)
    requires used != [] && Partition(qs, d.free, d.outstanding)
    ensures var c := Collect(used, d, n).driver; Partition(qs, c.free, c.outstanding)
  {
    hide Partition;
    if n > 0 {
      CollectKeeps(qs, used, d, n - 1);
      var c := Collect(used, d, n - 1).driver;
      RetireKeeps(qs, c, Wrap(used[Slot(c.lastUsed, |used|)].0));
    }
  }

  datatype DriverOp = PublishOp(n: nat) | CollectOp(used: seq<(u32, u32)>, n: nat)

  /** A driver with an empty queue: every descriptor is free, and the lowest is handed out first. */
  function NewDriver(qs: nat): DriverState
    requires qs < 0x1_0000
  {
    DriverState(0, 0, 0, seq(qs, i requires 0 <= i < qs => (qs - 1 - i) as u16), map[])
  }

  /** A new driver hands out its descriptors in ascending order. */
  lemma FreshInOrder(qs: nat, n: nat, i: nat)
    requires i < n <= qs < 0x1_0000
    ensures Taken(NewDriver(qs).free, n)[i] == i
  {
  }

  /** The descriptors of a chain just collected are the next to be handed out, the last of them first; after them
      come those that were free before. */
  lemma FreedIsNext(d: DriverState, id: u16, n: nat, i: nat)
    requires id in d.outstanding && i < n <= |d.free| + |d.outstanding[id]|
    ensures var chain, next := d.outstanding[id], Taken(Retire(d, id).free, n);
      next[i] == if i < |chain| then chain[|chain| - 1 - i] else d.free[|d.free| - 1 - (i - |chain|)]
  {
  }

  /** A driver that publishes when it has descriptors left and collects from whatever the used ring holds. */
  function RunDriver(d: DriverState, ops: seq<DriverOp>): DriverState {
    if ops == [] then d
    else
      var d1 := RunDriver(d, ops[..|ops| - 1]);
      match ops[|ops| - 1]
      case PublishOp(n) => if 0 < n <= |d1.free| then Publish(d1, n) else d1
      case CollectOp(used, n) => if used != [] then Collect(used, d1, n).driver else d1
  }

  /** Whatever the used ring holds at any time (wrong, repeated or foreign ids), no descriptor is lost,
      freed twice or owned by two chains, and no chain overwrites another one's entry. */
  lemma {:induction false} DescriptorsConserved(qs: nat, ops: seq<DriverOp>)
    requires qs < 0x1_0000
    ensures var d := RunDriver(NewDriver(qs), ops);
      && Partition(qs, d.free, d.outstanding)
      && forall n | 0 < n <= |d.free| :: Taken(d.free, n)[0] !in d.outstanding
  {
    var d := RunDriver(NewDriver(qs), ops);
    if ops == [] {
      forall x: u16 | x < qs ensures x in d.free {
        assert d.free[qs - 1 - x] == x;
      }
    } else {
      var d1 := RunDriver(NewDriver(qs), ops[..|ops| - 1]);
      DescriptorsConserved(qs, ops[..|ops| - 1]);
      hide Partition, Publish, Collect, Taken, NewDriver;
      match ops[|ops| - 1]
      case PublishOp(n) => if 0 < n <= |d1.free| { PublishKeeps(qs, d1, n); }
      case CollectOp(used, n) => if used != [] { CollectKeeps(qs, used, d1, n); }
    }
    forall n | 0 < n <= |d.free| ensures Taken(d.free, n)[0] !in d.outstanding {
      PublishKeeps(qs, d, n);
    }
  }

  // ---------------------------------------------------------------- the rings after writing a chain

  lemma ViewOfPutDesc(m: seq<byte>, l: Layout, at: nat, d: Descriptor)
    requires l.Valid() && RingsIn(m, l) && at < l.queueSize
    ensures var r := View(m, l); View(PutDesc(m, l, at, d), l) == r.(table := r.table[at := d])
    ensures SameOutside(m, PutDesc(m, l, at, d), l.descTable, l.End())
  {
    hide View, Put;
    Widths();
    var m1 := Put(m, l, DescAddr(at), d.addr);
    var m2 := Put(m1, l, DescLen(at), d.len);
    var m3 := Put(m2, l, DescFlags(at), d.flags);
    ViewOfPut(m, l, DescAddr(at), d.addr);
    ViewOfPut(m1, l, DescLen(at), d.len);
    ViewOfPut(m2, l, DescFlags(at), d.flags);
    ViewOfPut(m3, l, DescNext(at), d.next);
    PutStaysInside(m, l, DescAddr(at), d.addr);
    PutStaysInside(m1, l, DescLen(at), d.len);
    PutStaysInside(m2, l, DescFlags(at), d.flags);
    PutStaysInside(m3, l, DescNext(at), d.next);
  }

  /** `t'` is `t` with the first `n` descriptors of the chain written. */
  ghost predicate ChainWritten(t: seq<Descriptor>, t': seq<Descriptor>, indices: seq<u16>, buffers: seq<Buffer>, n: nat)
    requires n <= |buffers| == |indices|
  {
    && |t'| == |t|
    && (forall i | 0 <= i < n :: indices[i] < |t'| && t'[indices[i]] == DescFor(indices, buffers, i))
    && (forall x: u16 | x < |t| && x !in indices :: t'[x] == t[x])
  }

  lemma {:induction false} ViewOfPutChain(m: seq<byte>, l: Layout, indices: seq<u16>, buffers: seq<Buffer>, n: nat)
    requires l.Valid() && RingsIn(m, l) && n <= |buffers| == |indices|
    requires Distinct(indices) && forall i | 0 <= i < |indices| :: indices[i] < l.queueSize
    ensures var r, r' := View(m, l), View(PutChain(m, l, indices, buffers, n), l);
      r' == r.(table := r'.table) && ChainWritten(r.table, r'.table, indices, buffers, n)
    ensures SameOutside(m, PutChain(m, l, indices, buffers, n), l.descTable, l.End())
  {
    hide View, PutDesc, DescFor, Layout.Valid;
    if n > 0 {
      ViewOfPutChain(m, l, indices, buffers, n - 1);
      ViewOfPutDesc(PutChain(m, l, indices, buffers, n - 1), l, indices[n - 1], DescFor(indices, buffers, n - 1));
    }
  }

  lemma ViewOfPutAvail(m: seq<byte>, l: Layout, n: u16, head: u16)
    requires l.Valid() && RingsIn(m, l)
    ensures var r := View(m, l);
      View(PutAvail(m, l, n, head), l)
        == r.(availRing := r.availRing[Slot(n, l.queueSize) := head], availIdx := Wrap(n + 1))
    ensures SameOutside(m, PutAvail(m, l, n, head), l.descTable, l.End())
  {
    hide View, Put;
    Widths();
    var slot := Slot(n, l.queueSize);
    ViewOfPut(m, l, AvailSlot(slot), head);
    ViewOfPut(Put(m, l, AvailSlot(slot), head), l, AvailIdx, Wrap(n + 1));
    PutStaysInside(m, l, AvailSlot(slot), head);
    PutStaysInside(Put(m, l, AvailSlot(slot), head), l, AvailIdx, Wrap(n + 1));
  }

  // ---------------------------------------------------------------- the same stores on any region

  lemma DescStoresPut(m: seq<byte>, l: Layout, at: nat, d: Descriptor)
    requires l.Valid() && RingsIn(m, l) && at < l.queueSize
    ensures StoreAll(m, l, DescStores(l, at, d)) == Stores(PutDesc(m, l, at, d), None)
  {
    hide Put, StoreAll;
    Widths();
    var s1: seq<(Field, nat)> := [(DescNext(at), d.next)];
    var s2: seq<(Field, nat)> := [(DescFlags(at), d.flags)] + s1;
    var s3: seq<(Field, nat)> := [(DescLen(at), d.len)] + s2;
    var m1 := Put(m, l, DescAddr(at), d.addr);
    var m2 := Put(m1, l, DescLen(at), d.len);
    var m3 := Put(m2, l, DescFlags(at), d.flags);
    assert DescStores(l, at, d) == [(DescAddr(at), d.addr as nat)] + s3;
    StoreAllPuts(m, l, DescAddr(at), d.addr, s3);
    StoreAllPuts(m1, l, DescLen(at), d.len, s2);
    StoreAllPuts(m2, l, DescFlags(at), d.flags, s1);
    assert s1 == s1 + [];
    StoreAllPuts(m3, l, DescNext(at), d.next, []);
    StoreNone(PutDesc(m, l, at, d), l);
  }

  lemma {:induction false} ChainStoresPut(m: seq<byte>, l: Layout, indices: seq<u16>, buffers: seq<Buffer>, n: nat)
    requires l.Valid() && RingsIn(m, l) && n <= |buffers| == |indices|
    requires forall i | 0 <= i < |indices| :: indices[i] < l.queueSize
    ensures StoreAll(m, l, ChainStores(l, indices, buffers, n)) == Stores(PutChain(m, l, indices, buffers, n), None)
  {
    hide StoreAll, PutDesc, DescStores, DescFor, AllStorable;
    if n == 0 {
      StoreNone(m, l);
    } else {
      var at, d := indices[n - 1], DescFor(indices, buffers, n - 1);
      ChainStoresPut(m, l, indices, buffers, n - 1);
      StoreAllJoin(m, l, ChainStores(l, indices, buffers, n - 1), DescStores(l, at, d));
      DescStoresPut(PutChain(m, l, indices, buffers, n - 1), l, at, d);
    }
  }

  lemma StorePuts(m: seq<byte>, l: Layout, f: Field, v: nat)
    requires l.Valid() && RingsIn(m, l) && Storable(l, f, v)
    ensures StoreAll(m, l, [(f, v)]) == Stores(Put(m, l, f, v), None)
  {
    hide StoreAll, Put;
    assert [(f, v)] + [] == [(f, v)];
    StoreAllPuts(m, l, f, v, []);
    StoreNone(Put(m, l, f, v), l);
  }

  /** Over rings that lie in the region, no store is refused. */
  lemma WriteAllPuts(m: seq<byte>, l: Layout, availIdx: u16, indices: seq<u16>, buffers: seq<Buffer>)
    requires l.Valid() && RingsIn(m, l) && 0 < |buffers| == |indices|
    requires forall i | 0 <= i < |indices| :: indices[i] < l.queueSize
    ensures WriteAll(m, l, availIdx, indices, buffers) == Publication(
      PutAvail(PutChain(m, l, indices, buffers, |buffers|), l, availIdx, indices[0]), Wrap(availIdx + 1), None)
  {
    hide StoreAll, Put, PutChain, ChainStores, Slot, Wrap;
    Widths();
    ChainStoresPut(m, l, indices, buffers, |buffers|);
    var m1 := PutChain(m, l, indices, buffers, |buffers|);
    var slot := AvailSlot(Slot(availIdx, l.queueSize));
    StorePuts(m1, l, slot, indices[0]);
    StorePuts(Put(m1, l, slot, indices[0]), l, AvailIdx, Wrap(availIdx + 1));
  }

  lemma UsedInShows(m: seq<byte>, l: Layout, at: u16)
    requires l.Valid() && RingsIn(m, l)
    ensures UsedIn(m, l, at) == Ok(View(m, l).usedRing[Slot(at, l.queueSize)])
  {
    hide Num, Slot, TableAt, AvailRingAt;
    Widths();
  }

  /** Over rings that lie in the region, no element is refused. */
  lemma {:induction false} CollectInShows(m: seq<byte>, l: Layout, d: DriverState, n: nat)
    requires l.Valid() && RingsIn(m, l)
    ensures CollectIn(m, l, d, n) == Collected(Collect(View(m, l).usedRing, d, n), None)
  {
    hide View, Slot, Wrap, Retire, UsedIn;
    if n > 0 {
      CollectInShows(m, l, d, n - 1);
      UsedInShows(m, l, CollectIn(m, l, d, n - 1).taken.driver.lastUsed);
    }
  }

  // ---------------------------------------------------------------- publishing as a whole

  /** The region after a chain over `buffers` has been written and published. */
  function SubmitMem(l: Layout, m: seq<byte>, drv: DriverState, buffers: seq<Buffer>): (r: seq<byte>)
    requires l.Valid() && RingsIn(m, l) && Partition(l.queueSize, drv.free, drv.outstanding)
    requires 0 < |buffers| <= |drv.free|
    ensures |r| == |m|
  {
    var indices := Taken(drv.free, |buffers|);
    PublishSafe(l.queueSize, drv, |buffers|);
    PutAvail(PutChain(m, l, indices, buffers, |buffers|), l, drv.availIdx, indices[0])
  }
}
