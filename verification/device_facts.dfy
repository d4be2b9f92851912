/** What a pass of the device changes and what it leaves alone. */
module DeviceFacts {
  import opened Words
  import opened Memory
  import opened VirtqLayout
  import opened Rings
  import opened ChainWalk
  import opened DeviceSpec

  // ---------------------------------------------------------------- publishing a completion

  lemma ViewOfPutUsed(m: seq<byte>, l: Layout, n: u16, head: u16, len: u32)
    requires l.Valid() && RingsIn(m, l)
    ensures var r, r', slot := View(m, l), View(PutUsed(m, l, n, head, len), l), Slot(n, l.queueSize);
      r' == r.(usedRing := r.usedRing[slot := (head, len)], usedIdx := Wrap(n + 1))
    ensures SameOutside(m, PutUsed(m, l, n, head, len), l.descTable, l.End())
  {
    hide View, Put;
    Widths();
    var slot := Slot(n, l.queueSize);
    var m1 := Put(m, l, UsedId(slot), head);
    var m2 := Put(m1, l, UsedLen(slot), len);
    ViewOfPut(m, l, UsedId(slot), head);
    ViewOfPut(m1, l, UsedLen(slot), len);
    ViewOfPut(m2, l, UsedIdx, Wrap(n + 1));
    PutStaysInside(m, l, UsedId(slot), head);
    PutStaysInside(m1, l, UsedLen(slot), len);
    PutStaysInside(m2, l, UsedIdx, Wrap(n + 1));
  }

  // ---------------------------------------------------------------- scattering

  /** A scatter that had already stored `written` bytes. */
  ghost function Resume(written: nat, rest: Scattered): Scattered {
    rest.(written := written + rest.written)
  }

  lemma ScatterFirst(m: seq<byte>, b: (u64, u32), tail: Buffers, response: seq<byte>)
    ensures Length([b] + tail) == b.1 + Length(tail)
    ensures var n := Min(b.1, |response|);
      Scatter(m, [b] + tail, response) ==
        if response == [] then Scattered(m, 0, None)
        else if b.0 + n > |m| then Scattered(m, 0, Some(OutOfBounds(b.0, n, |m|)))
        else Resume(n, Scatter(Patch(m, b.0, response[..n]), tail, response[n..]))
  {
    hide Patch;
    assert ([b] + tail)[1..] == tail;
  }

  ghost predicate InBuffer(b: (u64, u32), p: nat) {
    b.0 <= p < b.0 + b.1
  }

  /** Scattering changes bytes of the given buffers only. */
  lemma {:induction false} ScatterTouches(m: seq<byte>, bs: Buffers, response: seq<byte>, p: nat)
    requires p < |m| && forall b | b in bs :: !InBuffer(b, p)
    ensures Scatter(m, bs, response).mem[p] == m[p]
    decreases |bs|
  {
    if bs != [] && response != [] {
      var (addr, len) := bs[0];
      var n := Min(len, |response|);
      assert !InBuffer(bs[0], p);
      if addr + n <= |m| {
        ScatterTouches(Patch(m, addr, response[..n]), bs[1..], response[n..], p);
      }
    }
  }

  lemma ScatterOutsideRings(m: seq<byte>, l: Layout, bs: Buffers, response: seq<byte>)
    requires forall b | b in bs :: Avoids(l, b)
    ensures SameRings(m, Scatter(m, bs, response).mem, l)
  {
    forall p | 0 <= p < |m| && l.descTable <= p < l.End() ensures Scatter(m, bs, response).mem[p] == m[p] {
      ScatterTouches(m, bs, response, p);
    }
  }

  // ---------------------------------------------------------------- one chain

  lemma ServeOutsideRings(m: seq<byte>, l: Layout, t: Table, head: u16, work: Work,
                          requests: seq<seq<byte>>, stats: ProcessStats)
    requires HarmlessChain(l, t, head)
    ensures SameRings(m, Serve(m, t, head, work, requests, stats).mem, l)
    ensures WalkChain(t, head).error.Some? ==> Serve(m, t, head, work, requests, stats).len == 0
  {
    hide WalkChain, Scatter, Avoids;
    var w := WalkChain(t, head);
    if w.error.None? {
      var requests' := requests + [Gather(m, Readable(w.descs)).request];
      ScatterOutsideRings(m, l, Writable(w.descs), work(requests'));
    }
  }

  /** The last completion a pass has published. */
  function Last(q: Pass): (u16, u32)
    requires q.completed != []
  {
    q.completed[|q.completed| - 1]
  }

  lemma ServeNextView(l: Layout, p: Pass, work: Work)
    requires l.Valid() && RingsIn(p.mem, l)
    requires HarmlessChain(l, TableOf(p.mem, l), Head(p.mem, l, p.dev.nextAvail, 0))
    ensures var q, r := ServeNext(l, p, work), View(p.mem, l);
      && View(q.mem, l) == r.(usedRing := r.usedRing[Slot(p.dev.nextUsed, l.queueSize) := Last(q)],
                              usedIdx := q.dev.nextUsed)
      && Last(q).0 == Head(p.mem, l, p.dev.nextAvail, 0)
      && (WalkChain(TableOf(p.mem, l), Last(q).0).error.Some? ==> Last(q).1 == 0)
  {
    hide View, HarmlessChain, WalkChain, PutUsed, Serve, Head, TableOf;
    var t, head := TableOf(p.mem, l), Head(p.mem, l, p.dev.nextAvail, 0);
    var s := Serve(p.mem, t, head, work, p.requests, p.stats);
    ServeOutsideRings(p.mem, l, t, head, work, p.requests, p.stats);
    ViewKept(p.mem, s.mem, l);
    ViewOfPutUsed(s.mem, l, p.dev.nextUsed, head, s.len);
  }

  // ---------------------------------------------------------------- a whole pass

  /** Of the rings, only the used ring and its index differ. */
  ghost predicate OnlyUsed(r: Rings, r': Rings) {
    r' == r.(usedRing := r'.usedRing, usedIdx := r'.usedIdx)
  }

  lemma SameTable(m: seq<byte>, m': seq<byte>, l: Layout)
    requires l.Valid() && RingsIn(m, l) && |m'| == |m|
    requires View(m', l).table == View(m, l).table
    ensures TableOf(m', l) == TableOf(m, l)
  {
    hide TableOf, View;
    TableOfView(m, l);
    TableOfView(m', l);
  }

  /** The `k`-th completion of a pass over `n` harmless chains answers the `k`-th chain available when the
      pass began, with length 0 if that chain is malformed. */
  ghost predicate Answers(l: Layout, p: Pass, completed: seq<(u16, u32)>, k: nat)
    requires l.Valid() && RingsIn(p.mem, l) && k < |completed|
  {
    && completed[k].0 == Head(p.mem, l, p.dev.nextAvail, k)
    && (WalkChain(TableOf(p.mem, l), completed[k].0).error.Some? ==> completed[k].1 == 0)
  }

  /** `q` is the pass `p` after `n` more chains: it has popped exactly those, published one completion for
      each in order, and changed nothing else in the rings. */
  ghost predicate Drained(l: Layout, p: Pass, q: Pass, n: nat)
    requires l.Valid() && RingsIn(p.mem, l) && |q.mem| == |p.mem|
  {
    && q.dev == DeviceState(Wrap(p.dev.nextAvail + n), Wrap(p.dev.nextUsed + n), Wrap(p.dev.numAdded + n))
    && OnlyUsed(View(p.mem, l), View(q.mem, l))
    && (n > 0 ==> View(q.mem, l).usedIdx == q.dev.nextUsed)
    && TableOf(q.mem, l) == TableOf(p.mem, l)
    && q.stats.chains == p.stats.chains + n
    && |q.completed| == n
    && (forall k | 0 <= k < n :: Answers(l, p, q.completed, k))
  }

  lemma ServeNextState(l: Layout, p: Pass, work: Work)
    requires l.Valid() && RingsIn(p.mem, l)
    ensures var q := ServeNext(l, p, work);
      && q.dev == DeviceState(Wrap(p.dev.nextAvail + 1), Wrap(p.dev.nextUsed + 1), Wrap(p.dev.numAdded + 1))
      && q.stats.chains == p.stats.chains + 1
      && q.completed != [] && q.completed == p.completed + [Last(q)]
  {
    hide View, WalkChain, TableOf, Head, PutUsed, Gather, Scatter;
  }

  lemma HeadShift(m: seq<byte>, m': seq<byte>, l: Layout, a: u16, n: nat)
    requires l.Valid() && RingsIn(m, l) && |m'| == |m| && OnlyUsed(View(m, l), View(m', l))
    ensures Head(m', l, Wrap(a + n), 0) == Head(m, l, a, n)
  {
    hide View, Slot;
  }

  lemma DrainedStep(l: Layout, p: Pass, q: Pass, work: Work, n: nat)
    requires l.Valid() && RingsIn(p.mem, l) && |q.mem| == |p.mem|
    requires Harmless(p.mem, l, p.dev.nextAvail, n + 1) && Drained(l, p, q, n)
    ensures Drained(l, p, ServeNext(l, q, work), n + 1)
  {
    hide View, HarmlessChain, WalkChain, TableOf, Head, ServeNext, Wrap, Slot;
    HeadShift(p.mem, q.mem, l, p.dev.nextAvail, n);
    assert HarmlessChain(l, TableOf(p.mem, l), Head(p.mem, l, p.dev.nextAvail, n));
    WrapDistance(p.dev.nextAvail + n, 1);
    WrapDistance(p.dev.nextUsed + n, 1);
    WrapDistance(p.dev.numAdded + n, 1);
    ServeNextView(l, q, work);
    ServeNextState(l, q, work);
    var q' := ServeNext(l, q, work);
    SameTable(p.mem, q'.mem, l);
    forall k | 0 <= k <= n ensures Answers(l, p, q'.completed, k) {
      if k < n {
        assert Answers(l, p, q.completed, k) && q'.completed[k] == q.completed[k];
      }
    }
  }

  lemma {:induction false} DrainExact(l: Layout, p: Pass, work: Work, n: nat)
    requires l.Valid() && RingsIn(p.mem, l) && Harmless(p.mem, l, p.dev.nextAvail, n) && p.completed == []
    ensures Drained(l, p, Drain(l, p, work, n), n)
  {
    hide View, Head, TableOf, HarmlessChain, ServeNext, Slot;
    if n > 0 {
      hide Drained;
      DrainExact(l, p, work, n - 1);
      DrainedStep(l, p, Drain(l, p, work, n - 1), work, n - 1);
    }
  }

  /** The used slot of the `k`-th completion of a pass. */
  function UsedSlot(l: Layout, from: u16, k: nat): (s: nat)
    requires l.queueSize > 0
    ensures s < l.queueSize
  {
    Slot(Wrap(from + k), l.queueSize)
  }

  lemma DrainLast(l: Layout, p: Pass, work: Work, n: nat)
    requires l.Valid() && RingsIn(p.mem, l) && Harmless(p.mem, l, p.dev.nextAvail, n + 1) && p.completed == []
    ensures var q1, q := Drain(l, p, work, n), Drain(l, p, work, n + 1);
      && |q1.completed| == n && q.completed == q1.completed + [Last(q)]
      && View(q.mem, l).usedRing == View(q1.mem, l).usedRing[UsedSlot(l, p.dev.nextUsed, n) := Last(q)]
  {
    hide View, HarmlessChain, ServeNext, Slot, Head, TableOf;
    var q1 := Drain(l, p, work, n);
    DrainExact(l, p, work, n);
    ServeNextState(l, q1, work);
    HeadShift(p.mem, q1.mem, l, p.dev.nextAvail, n);
    assert HarmlessChain(l, TableOf(p.mem, l), Head(p.mem, l, p.dev.nextAvail, n));
    ServeNextView(l, q1, work);
  }

  /** When the pass is no longer than the ring, all its completions stand in the used ring. */
  lemma {:induction false} UsedRingAfterDrain(l: Layout, p: Pass, work: Work, n: nat, k: nat)
    requires l.Valid() && RingsIn(p.mem, l) && Harmless(p.mem, l, p.dev.nextAvail, n) && p.completed == []
    requires k < n <= l.queueSize
    ensures var q := Drain(l, p, work, n);
      |q.completed| == n && View(q.mem, l).usedRing[UsedSlot(l, p.dev.nextUsed, k)] == q.completed[k]
  {
    hide View, HarmlessChain, Drain, Slot;
    DrainLast(l, p, work, n - 1);
    if k < n - 1 {
      UsedRingAfterDrain(l, p, work, n - 1, k);
      SlotsDistinct(p.dev.nextUsed + k, p.dev.nextUsed + n - 1, l.queueSize);
    }
  }

  /** Slots a pass did not complete into keep their contents. */
  lemma {:induction false} UsedRingElsewhere(l: Layout, p: Pass, work: Work, n: nat, x: nat)
    requires l.Valid() && RingsIn(p.mem, l) && Harmless(p.mem, l, p.dev.nextAvail, n) && p.completed == []
    requires x < l.queueSize && forall k | 0 <= k < n :: x != UsedSlot(l, p.dev.nextUsed, k)
    ensures View(Drain(l, p, work, n).mem, l).usedRing[x] == View(p.mem, l).usedRing[x]
  {
    hide View, HarmlessChain, UsedSlot, ServeNext;
    if n > 0 {
      hide Drain;
      DrainLast(l, p, work, n - 1);
      UsedRingElsewhere(l, p, work, n - 1, x);
    }
  }
}
