/** A pass over any region, whether or not it holds the rings entirely: what its turns take from the rings, and
    when it ends. It is enough that no chain makes the device write over the bytes the pass reads. */
module Steadiness {
  import opened Words
  import opened Memory
  import opened VirtqLayout
  import opened Rings
  import opened Fields
  import opened ChainWalk
  import opened DeviceSpec
  import opened DeviceFacts

  // ---------------------------------------------------------------- what the input bytes determine

  lemma LoadSame(m: seq<byte>, m': seq<byte>, a: u64, n: u64)
    requires |m'| == |m| && forall p | a <= p < a + n && p < |m| :: m'[p] == m[p]
    ensures Load(m', a, n) == Load(m, a, n)
  {
    hide FromLE;
    if a + n <= |m| {
      assert m'[a..a + n] == m[a..a + n];
    }
  }

  lemma DescriptorSame(m: seq<byte>, m': seq<byte>, at: nat)
    requires at + 16 < 0x1_0000_0000_0000_0000
    requires |m'| == |m| && forall p | at <= p < at + 16 && p < |m| :: m'[p] == m[p]
    ensures ReadDescriptor(m', at) == ReadDescriptor(m, at)
  {
    hide Load;
    LoadSame(m, m', at, 8);
    LoadSame(m, m', at + 8, 4);
    LoadSame(m, m', at + 12, 2);
    LoadSame(m, m', at + 14, 2);
  }

  lemma TableSame(m: seq<byte>, m': seq<byte>, l: Layout)
    requires l.Valid() && SameInputs(m, m', l)
    ensures TableOf(m', l) == TableOf(m, l)
  {
    hide ReadDescriptor;
    forall i | 0 <= i < l.queueSize ensures TableOf(m', l)[i] == TableOf(m, l)[i] {
      FieldInside(l, DescAddr(i));
      DescriptorSame(m, m', l.At(DescAddr(i)));
    }
  }

  lemma AvailSame(m: seq<byte>, m': seq<byte>, l: Layout)
    requires l.Valid() && SameInputs(m, m', l)
    ensures LoadShort(m', l, AvailIdx) == LoadShort(m, l, AvailIdx)
    ensures forall i | 0 <= i < l.queueSize :: LoadShort(m', l, AvailSlot(i)) == LoadShort(m, l, AvailSlot(i))
  {
    hide Load;
    FieldInside(l, AvailIdx);
    LoadSame(m, m', l.At(AvailIdx), 2);
    forall i | 0 <= i < l.queueSize ensures LoadShort(m', l, AvailSlot(i)) == LoadShort(m, l, AvailSlot(i)) {
      FieldInside(l, AvailSlot(i));
      LoadSame(m, m', l.At(AvailSlot(i)), 2);
    }
  }

  // ---------------------------------------------------------------- what leaves them alone

  predicate IsUsedField(f: Field) {
    f.UsedId? || f.UsedLen? || f.UsedIdx?
  }

  lemma {:induction false} StoreAllSpares(m: seq<byte>, l: Layout, stores: seq<(Field, nat)>)
    requires l.Valid() && AllStorable(l, stores)
    requires forall i | 0 <= i < |stores| :: IsUsedField(stores[i].0)
    ensures SameInputs(m, StoreAll(m, l, stores).mem, l)
    decreases |stores|
  {
    if stores != [] {
      var (f, v) := stores[0];
      assert Storable(l, stores[0].0, stores[0].1) && IsUsedField(stores[0].0);
      UsedFieldAbove(l, f);
      hide Layout.At, Layout.Width, ToLE;
      if l.At(f) + l.Width(f) <= |m| {
        var m1 := Patch(m, l.At(f), ToLE(v, l.Width(f)));
        assert SameInputs(m, m1, l);
        StoreAllSpares(m1, l, stores[1..]);
      }
    }
  }

  lemma UsedFieldAbove(l: Layout, f: Field)
    requires l.Valid() && l.Has(f) && IsUsedField(f)
    ensures l.availRing + 6 + 2 * l.queueSize <= l.At(f)
  {
  }

  lemma CompleteSpares(m: seq<byte>, l: Layout, dev: DeviceState, head: u16, len: u32)
    requires l.Valid()
    ensures SameInputs(m, Complete(m, l, dev, head, len).mem, l)
    ensures Complete(m, l, dev, head, len).error == None ==>
      Complete(m, l, dev, head, len).dev
        == dev.(nextUsed := Wrap(dev.nextUsed + 1), numAdded := Wrap(dev.numAdded + 1))
  {
    Widths();
    var slot := Slot(dev.nextUsed, l.queueSize);
    var stores: seq<(Field, nat)> := [(UsedId(slot), head), (UsedLen(slot), len)];
    StoreAllSpares(m, l, stores);
    var index: seq<(Field, nat)> := [(UsedIdx, Wrap(dev.nextUsed + 1))];
    StoreAllSpares(StoreAll(m, l, stores).mem, l, index);
    hide StoreAll, Slot, Wrap;
  }

  lemma SparedByte(l: Layout, b: (u64, u32), p: nat)
    requires SparesInputs(l, b) && IsInput(l, p)
    ensures !InBuffer(b, p)
  {
  }

  lemma ServeSpares(m: seq<byte>, l: Layout, t: Table, head: u16, work: Work,
                    requests: seq<seq<byte>>, stats: ProcessStats)
    requires SteadyChain(l, t, Ok(head))
    ensures SameInputs(m, Serve(m, t, head, work, requests, stats).mem, l)
    ensures WalkChain(t, head).error.Some? ==> Serve(m, t, head, work, requests, stats).len == 0
    ensures Serve(m, t, head, work, requests, stats).stats.chains == stats.chains + 1
  {
    hide WalkChain, Scatter, SparesInputs, IsInput, Gather, Readable, Writable;
    var w := WalkChain(t, head);
    if w.error.None? {
      var bs, response := Writable(w.descs), work(requests + [Gather(m, Readable(w.descs)).request]);
      forall p | 0 <= p < |m| && IsInput(l, p) ensures Scatter(m, bs, response).mem[p] == m[p] {
        forall b | b in bs ensures !InBuffer(b, p) {
          SparedByte(l, b, p);
        }
        ScatterTouches(m, bs, response, p);
      }
    }
  }

  // ---------------------------------------------------------------- turns

  /** The `k`-th completion answers the `k`-th chain that was available, with length 0 if it is malformed. */
  ghost predicate Took(l: Layout, p: Pass, completed: seq<(u16, u32)>, k: nat)
    requires l.Valid() && k < |completed|
  {
    && HeadIn(p.mem, l, p.dev.nextAvail, k) == Ok(completed[k].0)
    && (WalkChain(TableOf(p.mem, l), completed[k].0).error.Some? ==> completed[k].1 == 0)
  }

  /** `q` has taken exactly the next `n` chains of `p`, in order, and completed each of them once. */
  ghost predicate HasTaken(l: Layout, p: Pass, q: Pass, n: nat)
    requires l.Valid()
  {
    && q.dev == DeviceState(Wrap(p.dev.nextAvail + n), Wrap(p.dev.nextUsed + n), Wrap(p.dev.numAdded + n))
    && SameInputs(p.mem, q.mem, l)
    && q.stats.chains == p.stats.chains + n
    && |q.completed| == n
    && (forall k | 0 <= k < n :: Took(l, p, q.completed, k))
  }

  lemma TurnTakes(l: Layout, p: Pass, work: Work)
    requires l.Valid() && Turn(l, p, work).Continued?
    requires SteadyChain(l, TableOf(p.mem, l), HeadIn(p.mem, l, p.dev.nextAvail, 0))
    ensures var q := Turn(l, p, work).pass;
      && q.dev == DeviceState(Wrap(p.dev.nextAvail + 1), Wrap(p.dev.nextUsed + 1), Wrap(p.dev.numAdded + 1))
      && SameInputs(p.mem, q.mem, l) && q.stats.chains == p.stats.chains + 1
      && q.completed != [] && q.completed == p.completed + [Last(q)]
      && HeadIn(p.mem, l, p.dev.nextAvail, 0) == Ok(Last(q).0)
      && (WalkChain(TableOf(p.mem, l), Last(q).0).error.Some? ==> Last(q).1 == 0)
  {
    hide TableOf, HeadIn, PendingIn, Serve, Complete, SteadyChain, WalkChain, IsInput;
    var head := HeadIn(p.mem, l, p.dev.nextAvail, 0).value;
    var s := Serve(p.mem, TableOf(p.mem, l), head, work, p.requests, p.stats);
    ServeSpares(p.mem, l, TableOf(p.mem, l), head, work, p.requests, p.stats);
    CompleteSpares(s.mem, l, p.dev.(nextAvail := Wrap(p.dev.nextAvail + 1)), head, s.len);
  }

  /** Later heads are where they were. */
  lemma HeadLater(m: seq<byte>, m': seq<byte>, l: Layout, a: u16, n: nat)
    requires l.Valid() && SameInputs(m, m', l)
    ensures HeadIn(m', l, Wrap(a + n), 0) == HeadIn(m, l, a, n)
  {
    hide LoadShort, IsInput;
    AvailSame(m, m', l);
  }

  lemma TakenStep(l: Layout, p: Pass, q: Pass, work: Work, n: nat)
    requires l.Valid() && Steady(p.mem, l, p.dev.nextAvail, n + 1) && HasTaken(l, p, q, n)
    requires Turn(l, q, work).Continued?
    ensures HasTaken(l, p, Turn(l, q, work).pass, n + 1)
  {
    hide TableOf, HeadIn, Turn, SteadyChain, WalkChain, IsInput, Wrap;
    TableSame(p.mem, q.mem, l);
    HeadLater(p.mem, q.mem, l, p.dev.nextAvail, n);
    assert SteadyChain(l, TableOf(p.mem, l), HeadIn(p.mem, l, p.dev.nextAvail, n));
    WrapDistance(p.dev.nextAvail + n, 1);
    WrapDistance(p.dev.nextUsed + n, 1);
    WrapDistance(p.dev.numAdded + n, 1);
    TurnTakes(l, q, work);
    var q' := Turn(l, q, work).pass;
    forall k | 0 <= k <= n ensures Took(l, p, q'.completed, k) {
      if k < n {
        assert Took(l, p, q.completed, k) && q'.completed[k] == q.completed[k];
      }
    }
  }

  /** Turns that served a chain have taken exactly the chains available, in order. */
  lemma {:induction false} AfterTakes(l: Layout, p: Pass, work: Work, n: nat)
    requires l.Valid() && Steady(p.mem, l, p.dev.nextAvail, n) && p.completed == []
    requires After(l, p, work, n).Some?
    ensures HasTaken(l, p, After(l, p, work, n).value, n)
  {
    hide HeadIn, TableOf, SteadyChain, Turn, IsInput, HasTaken;
    if n == 0 {
      TakenNone(l, p);
    } else {
      AfterTakes(l, p, work, n - 1);
      TakenStep(l, p, After(l, p, work, n - 1).value, work, n - 1);
    }
  }

  lemma TakenNone(l: Layout, p: Pass)
    requires l.Valid() && p.completed == []
    ensures HasTaken(l, p, p, 0)
  {
  }

  /** What is left after `n` turns: `n` chains fewer, or nothing can be read just as at the start. */
  lemma LeftAfter(l: Layout, p: Pass, q: Pass, n: nat)
    requires l.Valid() && HasTaken(l, p, q, n)
    ensures match PendingIn(p.mem, l, p.dev)
      case Err(e) => PendingIn(q.mem, l, q.dev) == Err(e)
      case Ok(pending) => n <= pending ==> PendingIn(q.mem, l, q.dev) == Ok(pending - n)
  {
    hide LoadShort, IsInput, TableOf, HeadIn, Took;
    AvailSame(p.mem, q.mem, l);
    match LoadShort(p.mem, l, AvailIdx)
    case Err(_) =>
    case Ok(v) =>
      if n <= Wrap(v - p.dev.nextAvail) {
        FewerLeft(v, p.dev.nextAvail, n);
      }
  }

  lemma FewerLeft(v: u16, at: u16, n: nat)
    requires n <= Wrap(v - at)
    ensures Wrap(v - Wrap(at + n)) == Wrap(v - at) - n
  {
  }

  // ---------------------------------------------------------------- over rings that lie in the region

  lemma CompletePuts(m: seq<byte>, l: Layout, dev: DeviceState, head: u16, len: u32)
    requires l.Valid() && RingsIn(m, l)
    ensures Complete(m, l, dev, head, len) == Completed(
      PutUsed(m, l, dev.nextUsed, head, len),
      dev.(nextUsed := Wrap(dev.nextUsed + 1), numAdded := Wrap(dev.numAdded + 1)), None)
  {
    hide Put, Slot, Wrap, StoreAll;
    Widths();
    var slot := Slot(dev.nextUsed, l.queueSize);
    StoreAllPuts(m, l, UsedId(slot), head, [(UsedLen(slot), len)]);
    assert [(UsedId(slot), head as nat)] + [(UsedLen(slot), len as nat)]
        == [(UsedId(slot), head), (UsedLen(slot), len)];
    var m1 := Put(m, l, UsedId(slot), head);
    StoreAllPuts(m1, l, UsedLen(slot), len, []);
    assert [(UsedLen(slot), len as nat)] + [] == [(UsedLen(slot), len)];
    var m2 := Put(m1, l, UsedLen(slot), len);
    StoreNone(m2, l);
    StoreAllPuts(m2, l, UsedIdx, Wrap(dev.nextUsed + 1), []);
    assert [(UsedIdx, Wrap(dev.nextUsed + 1) as nat)] + [] == [(UsedIdx, Wrap(dev.nextUsed + 1))];
    StoreNone(Put(m2, l, UsedIdx, Wrap(dev.nextUsed + 1)), l);
  }

  lemma TurnServes(l: Layout, p: Pass, work: Work)
    requires l.Valid() && RingsIn(p.mem, l)
    ensures Turn(l, p, work)
      == if Pending(p.mem, l, p.dev) == 0 then Finished else Continued(ServeNext(l, p, work))
  {
    hide PutUsed, Serve, View, Complete, Pending, Head, HeadIn, PendingIn, TableOf;
    PendingShown(p.mem, l, p.dev);
    var head := Head(p.mem, l, p.dev.nextAvail, 0);
    var s := Serve(p.mem, TableOf(p.mem, l), head, work, p.requests, p.stats);
    CompletePuts(s.mem, l, p.dev.(nextAvail := Wrap(p.dev.nextAvail + 1)), head, s.len);
  }

  /** Over rings that lie in the region, the first turns of a pass are those of `Drain`. */
  lemma {:induction false} AfterDrains(l: Layout, p: Pass, work: Work, n: nat)
    requires l.Valid() && RingsIn(p.mem, l) && p.completed == []
    requires Steady(p.mem, l, p.dev.nextAvail, n) && n <= Pending(p.mem, l, p.dev)
    ensures After(l, p, work, n) == Some(Drain(l, p, work, n))
  {
    hide HeadIn, TableOf, SteadyChain, Turn, IsInput, Pending, ServeNext, HasTaken, PendingIn;
    if n > 0 {
      AfterDrains(l, p, work, n - 1);
      AfterTakes(l, p, work, n - 1);
      var q := Drain(l, p, work, n - 1);
      LeftAfter(l, p, q, n - 1);
      PendingShown(p.mem, l, p.dev);
      PendingShown(q.mem, l, q.dev);
      TurnServes(l, q, work);
    }
  }

  /** A pass whose chains keep off what it reads ends: after exactly as many turns as chains were available,
      it has taken those chains in order, completed each once, and none is left. What else of the rings the
      chains write over, the used ring included, makes no difference. */
  lemma SteadyPassEnds(l: Layout, p: Pass, work: Work)
    requires l.Valid() && RingsIn(p.mem, l) && p.completed == []
    requires Steady(p.mem, l, p.dev.nextAvail, Pending(p.mem, l, p.dev))
    ensures var n := Pending(p.mem, l, p.dev);
      var q := Drain(l, p, work, n);
      && Pending(q.mem, l, q.dev) == 0 && EndsAfter(l, p, work, n, Ok(q.stats), q.mem, q.dev)
      && q.dev == DeviceState(Wrap(p.dev.nextAvail + n), Wrap(p.dev.nextUsed + n), Wrap(p.dev.numAdded + n))
      && SameInputs(p.mem, q.mem, l) && q.stats.chains == p.stats.chains + n && |q.completed| == n
      && forall k | 0 <= k < n :: Answers(l, p, q.completed, k)
  {
    hide HeadIn, TableOf, SteadyChain, Turn, IsInput, Pending, ServeNext, PendingIn, Head, WalkChain, After, Drain;
    var n := Pending(p.mem, l, p.dev);
    var q := Drain(l, p, work, n);
    AfterDrains(l, p, work, n);
    AfterTakes(l, p, work, n);
    LeftAfter(l, p, q, n);
    PendingShown(p.mem, l, p.dev);
    PendingShown(q.mem, l, q.dev);
    TurnServes(l, q, work);
    forall k | 0 <= k < n ensures Answers(l, p, q.completed, k) {
      assert Took(l, p, q.completed, k);
    }
  }

  /** Chains that keep off the rings altogether keep off what the pass reads. */
  lemma HarmlessIsSteady(m: seq<byte>, l: Layout, nextAvail: u16, n: nat)
    requires l.Valid() && RingsIn(m, l) && Harmless(m, l, nextAvail, n)
    ensures Steady(m, l, nextAvail, n)
  {
    hide View, TableOf, WalkChain, Head, HeadIn;
    forall k | 0 <= k < n ensures SteadyChain(l, TableOf(m, l), HeadIn(m, l, nextAvail, k)) {
      assert HarmlessChain(l, TableOf(m, l), Head(m, l, nextAvail, k));
    }
  }
}
