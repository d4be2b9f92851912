/** What a pass over any number of chains does with data: what `work` is asked, where its answers arrive, what
    every completion reports, and which bytes stay as they were. */
module Passes {
  import opened Words
  import opened Memory
  import opened VirtqLayout
  import opened Rings
  import opened ChainWalk
  import opened DeviceSpec
  import opened DeviceFacts
  import opened ScatterGather

  // ---------------------------------------------------------------- the chains of a pass

  /** The walk over the `k`-th chain from position `a` on. */
  ghost function ChainAt(m: seq<byte>, l: Layout, a: u16, k: nat): Walked
    requires l.Valid() && RingsIn(m, l)
  {
    WalkChain(TableOf(m, l), Head(m, l, a, k))
  }

  /** Its buffers, by direction; a refused chain has none that matter. */
  ghost function ReadableAt(m: seq<byte>, l: Layout, a: u16, k: nat): Buffers
    requires l.Valid() && RingsIn(m, l)
  {
    var w := ChainAt(m, l, a, k);
    if w.error.Some? then [] else Readable(w.descs)
  }

  ghost function WritableAt(m: seq<byte>, l: Layout, a: u16, k: nat): Buffers
    requires l.Valid() && RingsIn(m, l)
  {
    var w := ChainAt(m, l, a, k);
    if w.error.Some? then [] else Writable(w.descs)
  }

  /** What the first `n` chains ask: one request per accepted chain, with the contents the region has now. */
  ghost function RequestsOf(m: seq<byte>, l: Layout, a: u16, n: nat): seq<seq<byte>>
    requires l.Valid() && RingsIn(m, l)
  {
    if n == 0 then []
    else RequestsOf(m, l, a, n - 1) + Asks(m, l, a, n - 1)
  }

  ghost function Asks(m: seq<byte>, l: Layout, a: u16, k: nat): seq<seq<byte>>
    requires l.Valid() && RingsIn(m, l)
  {
    if ChainAt(m, l, a, k).error.Some? then [] else [RequestIn(m, ReadableAt(m, l, a, k))]
  }

  ghost predicate AllApart(bs: Buffers, cs: Buffers) {
    forall b, c | b in bs && c in cs :: ApartBuffers(b, c)
  }

  ghost predicate AllAvoid(l: Layout, bs: Buffers) {
    forall b | b in bs :: Avoids(l, b)
  }

  /** The buffers of the next `n` chains lie outside the rings, and what the device writes for one of them is
      in no buffer of a later one. */
  ghost predicate Undisturbed(m: seq<byte>, l: Layout, a: u16, n: nat)
    requires l.Valid() && RingsIn(m, l)
  {
    && (forall k | 0 <= k < n :: AllAvoid(l, ReadableAt(m, l, a, k)) && AllAvoid(l, WritableAt(m, l, a, k)))
    && (forall j, k | 0 <= j < k < n ::
          && AllApart(WritableAt(m, l, a, j), ReadableAt(m, l, a, k))
          && AllApart(WritableAt(m, l, a, j), WritableAt(m, l, a, k)))
  }

  // ---------------------------------------------------------------- what one chain gets

  /** Within the buffers, `m'` has the first `n` bytes of the response at their places, and otherwise what `m` has. */
  ghost predicate PlacedIn(m: seq<byte>, m': seq<byte>, bs: Buffers, response: seq<byte>, n: nat)
    requires |m'| == |m| && n <= |response| && n <= Length(bs)
  {
    forall p: nat | p < |m| && In(bs, p) ::
      && (NoneAt(bs, n, p) ==> m'[p] == m[p])
      && (forall c: nat | c < n && LastAt(bs, n, p, c) :: m'[p] == response[c])
  }

  ghost predicate In(bs: Buffers, p: nat) {
    exists b :: b in bs && InBuffer(b, p)
  }

  /** The answer to an accepted chain with these writable buffers is `response`, and `len` is reported: exactly
      the bytes that could be stored, and they are where they belong. In particular buffers that lie in the
      region and share no byte now read as the response, cut where they are full, and then as before. */
  ghost predicate Delivered(m: seq<byte>, m': seq<byte>, bs: Buffers, response: seq<byte>, len: nat) {
    && |m'| == |m| && len <= |response| && len <= Length(bs)
    && (exists failure: Option<MemError> :: Ends(bs, |m|, |response|, len, failure))
    && PlacedIn(m, m', bs, response, len)
    && (InRegion(m, bs) && Separate(bs) ==>
          && len == Min(|response|, Length(bs))
          && Contents(m', bs) == response[..len] + Contents(m, bs)[len..])
  }

  /** The `k`-th chain has been completed under its head; a refused one with length 0, an accepted one with what
      was delivered of the answer to its request. */
  ghost predicate ServedAt(m: seq<byte>, m': seq<byte>, l: Layout, a: u16, work: Work, before: seq<seq<byte>>,
                           done: (u16, u32), k: nat)
    requires l.Valid() && RingsIn(m, l)
  {
    && done.0 == Head(m, l, a, k)
    && if ChainAt(m, l, a, k).error.Some? then done.1 == 0
       else Delivered(m, m', WritableAt(m, l, a, k), work(before + RequestsOf(m, l, a, k + 1)), done.1)
  }

  /** Outside the rings and the writable buffers of the first `n` chains, nothing has changed. */
  ghost predicate Untouched(m: seq<byte>, m': seq<byte>, l: Layout, a: u16, n: nat)
    requires l.Valid() && RingsIn(m, l) && |m'| == |m|
  {
    forall x | 0 <= x < |m| && !(l.descTable <= x < l.End())
        && (forall k | 0 <= k < n :: !In(WritableAt(m, l, a, k), x)) :: m'[x] == m[x]
  }

  ghost predicate Serves(l: Layout, p: Pass, q: Pass, work: Work, n: nat)
    requires l.Valid() && RingsIn(p.mem, l) && |q.mem| == |p.mem|
  {
    && q.requests == p.requests + RequestsOf(p.mem, l, p.dev.nextAvail, n)
    && |q.completed| == n
    && (forall k | 0 <= k < n ::
          ServedAt(p.mem, q.mem, l, p.dev.nextAvail, work, p.requests, q.completed[k], k))
    && Untouched(p.mem, q.mem, l, p.dev.nextAvail, n)
  }

  // ---------------------------------------------------------------- one turn

  lemma {:induction false} InsideKept(m: seq<byte>, m': seq<byte>, bs: Buffers)
    requires |m'| == |m| && forall p: nat | p < |m| && In(bs, p) :: m'[p] == m[p]
    ensures RequestIn(m', bs) == RequestIn(m, bs)
  {
    InsideSame(m, m', bs);
    forall b, p: nat | b in Inside(m, bs) && InBuffer(b, p) ensures m'[p] == m[p] {
      InsideIn(m, bs, b);
      assert In(bs, p);
    }
    ContentsKept(m, m', Inside(m, bs));
  }

  lemma {:induction false} InsideIn(m: seq<byte>, bs: Buffers, b: (u64, u32))
    requires b in Inside(m, bs)
    ensures b in bs
  {
    if b != bs[0] {
      InsideIn(m, bs[1..], b);
    }
  }

  /** The buffers of a chain still hold what they held when the pass began. */
  lemma StillHeld(m: seq<byte>, m': seq<byte>, l: Layout, a: u16, n: nat, bs: Buffers)
    requires l.Valid() && RingsIn(m, l) && |m'| == |m| && Untouched(m, m', l, a, n)
    requires AllAvoid(l, bs) && forall j | 0 <= j < n :: AllApart(WritableAt(m, l, a, j), bs)
    ensures forall p: nat | p < |m| && In(bs, p) :: m'[p] == m[p]
  {
    hide WritableAt, View, RingsIn, Layout.Valid;
    forall p: nat | p < |m| && In(bs, p) ensures m'[p] == m[p] {
      var c :| c in bs && InBuffer(c, p);
      assert Avoids(l, c);
      forall k | 0 <= k < n ensures !In(WritableAt(m, l, a, k), p) {
        forall b | b in WritableAt(m, l, a, k) ensures !InBuffer(b, p) {
          assert ApartBuffers(b, c);
        }
      }
    }
  }

  /** A delivery stands as long as its buffers are left alone. */
  lemma DeliveryStands(m: seq<byte>, m1: seq<byte>, m2: seq<byte>, bs: Buffers, response: seq<byte>, len: nat)
    requires Delivered(m, m1, bs, response, len) && |m2| == |m|
    requires forall p: nat | p < |m| && In(bs, p) :: m2[p] == m1[p]
    ensures Delivered(m, m2, bs, response, len)
  {
    hide Ends, Separate, LastAt, NoneAt, Length;
    if InRegion(m, bs) {
      forall b, p: nat | b in bs && InBuffer(b, p) ensures m2[p] == m1[p] {
        assert In(bs, p);
      }
      ContentsKept(m1, m2, bs);
    }
  }

  /** Serving an accepted chain delivers the answer. */
  lemma ServeDelivers(m: seq<byte>, t: Table, head: u16, work: Work, requests: seq<seq<byte>>, stats: ProcessStats)
    requires WalkChain(t, head).error == None
    ensures var ds := WalkChain(t, head).descs;
      var response := work(requests + [RequestIn(m, Readable(ds))]);
      var s := Serve(m, t, head, work, requests, stats);
      && s.requests == requests + [RequestIn(m, Readable(ds))]
      && Delivered(m, s.mem, Writable(ds), response, s.len)
      && forall p: nat | p < |m| && !In(Writable(ds), p) :: s.mem[p] == m[p]
  {
    hide WalkChain, Serve, Readable, Writable, RequestIn, Contents, Ends, Separate, Length, LastAt, NoneAt;
    var ds := WalkChain(t, head).descs;
    var s, bs := Serve(m, t, head, work, requests, stats), Writable(ds);
    ServeExact(m, t, head, work, requests, stats);
    if InRegion(m, bs) && Separate(bs) {
      ServeInRegion(m, t, head, work, requests, stats);
    }
    forall p: nat | p < |m| && !In(bs, p) ensures s.mem[p] == m[p] {
      NotInNoneAt(bs, s.len, p);
    }
    LastIsInResponse(bs, s.len);
  }

  lemma {:induction false} PlaceIn(bs: Buffers, c: nat)
    requires c < Length(bs)
    ensures In(bs, Place(bs, c))
  {
    if c < bs[0].1 {
      assert bs[0] in bs && InBuffer(bs[0], Place(bs, c));
    } else {
      PlaceIn(bs[1..], c - bs[0].1);
      var b :| b in bs[1..] && InBuffer(b, Place(bs, c));
      assert b in bs;
    }
  }

  lemma NotInNoneAt(bs: Buffers, n: nat, p: nat)
    requires n <= Length(bs) && !In(bs, p)
    ensures NoneAt(bs, n, p)
  {
    hide Place, Length;
    forall c | 0 <= c < n ensures Place(bs, c) != p {
      PlaceIn(bs, c);
    }
  }

  lemma LastIsInResponse(bs: Buffers, n: nat)
    requires n <= Length(bs)
    ensures forall p: nat, c: nat | LastAt(bs, n, p, c) :: c < n
  {
    hide Place, Length;
  }

  /** A delivery may be judged by any earlier contents of its buffers that were still there. */
  lemma DeliveryFrom(m0: seq<byte>, m: seq<byte>, m': seq<byte>, bs: Buffers, response: seq<byte>, len: nat)
    requires Delivered(m, m', bs, response, len) && |m0| == |m|
    requires forall p: nat | p < |m| && In(bs, p) :: m[p] == m0[p]
    ensures Delivered(m0, m', bs, response, len)
  {
    hide Ends, Separate, LastAt, NoneAt, Length;
    if InRegion(m, bs) {
      forall b, p: nat | b in bs && InBuffer(b, p) ensures m[p] == m0[p] {
        assert In(bs, p);
      }
      ContentsKept(m0, m, bs);
    }
  }

  /** Bytes outside the rings that no writable buffer of the chain contains. */
  ghost predicate Beside(l: Layout, bs: Buffers, x: nat) {
    !(l.descTable <= x < l.End()) && !In(bs, x)
  }

  /** Serving one chain, in terms of the region `m0` when the pass began. */
  lemma TurnDelivers(m0: seq<byte>, l: Layout, a: u16, n: nat, work: Work, before: seq<seq<byte>>,
                     m: seq<byte>, nextUsed: u16, stats: ProcessStats)
    requires l.Valid() && RingsIn(m0, l) && |m| == |m0|
    requires AllAvoid(l, WritableAt(m0, l, a, n))
    requires forall x: nat | x < |m| && In(WritableAt(m0, l, a, n), x) :: m[x] == m0[x]
    requires forall x: nat | x < |m| && In(ReadableAt(m0, l, a, n), x) :: m[x] == m0[x]
    ensures var s := Serve(m, TableOf(m0, l), Head(m0, l, a, n), work, before + RequestsOf(m0, l, a, n), stats);
      var m' := PutUsed(s.mem, l, nextUsed, Head(m0, l, a, n), s.len);
      && |m'| == |m|
      && s.requests == before + RequestsOf(m0, l, a, n + 1)
      && ServedAt(m0, m', l, a, work, before, (Head(m0, l, a, n), s.len), n)
      && forall x: nat | x < |m| && Beside(l, WritableAt(m0, l, a, n), x) :: m'[x] == m[x]
  {
    hide View, TableOf, Head, WalkChain, Serve, PutUsed, Readable, Writable, RequestIn, Delivered, In, Avoids;
    var t, head := TableOf(m0, l), Head(m0, l, a, n);
    var requests := before + RequestsOf(m0, l, a, n);
    var s := Serve(m, t, head, work, requests, stats);
    var m' := PutUsed(s.mem, l, nextUsed, head, s.len);
    ViewOfPutUsed(s.mem, l, nextUsed, head, s.len);
    if ChainAt(m0, l, a, n).error.Some? {
      ServeRefused(m, t, head, work, requests, stats);
      assert s.requests == before + RequestsOf(m0, l, a, n + 1);
    } else {
      var bs := WritableAt(m0, l, a, n);
      InsideKept(m0, m, ReadableAt(m0, l, a, n));
      ServeDelivers(m, t, head, work, requests, stats);
      assert s.requests == before + RequestsOf(m0, l, a, n + 1);
      var response := work(s.requests);
      DeliveryFrom(m0, m, s.mem, bs, response, s.len);
      forall x: nat | x < |m| && In(bs, x) ensures m'[x] == s.mem[x] {
        InAvoids(l, bs, x);
      }
      DeliveryStands(m0, s.mem, m', bs, response, s.len);
    }
  }

  lemma InAvoids(l: Layout, bs: Buffers, x: nat)
    requires AllAvoid(l, bs) && In(bs, x)
    ensures !(l.descTable <= x < l.End())
  {
    var b :| b in bs && InBuffer(b, x);
    assert Avoids(l, b);
  }

  lemma ServesStep(l: Layout, p: Pass, q: Pass, work: Work, n: nat)
    requires l.Valid() && RingsIn(p.mem, l) && |q.mem| == |p.mem|
    requires Undisturbed(p.mem, l, p.dev.nextAvail, n + 1)
    requires Drained(l, p, q, n) && Serves(l, p, q, work, n)
    ensures Serves(l, p, ServeNext(l, q, work), work, n + 1)
  {
    hide View, TableOf, Head, WalkChain, Serve, PutUsed, RequestsOf, ServedAt, ReadableAt, WritableAt,
      AllAvoid, AllApart, Untouched, In, Slot, Wrap, Answers;
    var m, a := p.mem, p.dev.nextAvail;
    var q', bs := ServeNext(l, q, work), WritableAt(m, l, a, n);
    HeadShift(m, q.mem, l, a, n);
    StillHeld(m, q.mem, l, a, n, ReadableAt(m, l, a, n));
    StillHeld(m, q.mem, l, a, n, bs);
    TurnDelivers(m, l, a, n, work, p.requests, q.mem, q.dev.nextUsed, q.stats);
    forall k | 0 <= k < n ensures ServedAt(m, q'.mem, l, a, work, p.requests, q'.completed[k], k) {
      assert q'.completed[k] == q.completed[k];
      forall x: nat | x < |m| && In(WritableAt(m, l, a, k), x) ensures q'.mem[x] == q.mem[x] {
        InAvoids(l, WritableAt(m, l, a, k), x);
        NotInBoth(WritableAt(m, l, a, k), bs, x);
      }
      ServedStands(m, q.mem, q'.mem, l, a, work, p.requests, q.completed[k], k);
    }
    UntouchedStep(m, q.mem, q'.mem, l, a, n);
  }

  lemma NotInBoth(bs: Buffers, cs: Buffers, x: nat)
    requires AllApart(bs, cs) && In(bs, x)
    ensures !In(cs, x)
  {
    var b :| b in bs && InBuffer(b, x);
    forall c | c in cs ensures !InBuffer(c, x) {
      assert ApartBuffers(b, c);
    }
  }

  lemma ServedStands(m: seq<byte>, m1: seq<byte>, m2: seq<byte>, l: Layout, a: u16, work: Work,
                     before: seq<seq<byte>>, done: (u16, u32), k: nat)
    requires l.Valid() && RingsIn(m, l) && |m1| == |m2| == |m|
    requires ServedAt(m, m1, l, a, work, before, done, k)
    requires forall x: nat | x < |m| && In(WritableAt(m, l, a, k), x) :: m2[x] == m1[x]
    ensures ServedAt(m, m2, l, a, work, before, done, k)
  {
    hide View, Head, RequestsOf, Delivered, WritableAt, In;
    if ChainAt(m, l, a, k).error.None? {
      DeliveryStands(m, m1, m2, WritableAt(m, l, a, k), work(before + RequestsOf(m, l, a, k + 1)), done.1);
    }
  }

  lemma UntouchedStep(m: seq<byte>, m1: seq<byte>, m2: seq<byte>, l: Layout, a: u16, n: nat)
    requires l.Valid() && RingsIn(m, l) && |m1| == |m2| == |m| && Untouched(m, m1, l, a, n)
    requires forall x: nat | x < |m| && Beside(l, WritableAt(m, l, a, n), x) :: m2[x] == m1[x]
    ensures Untouched(m, m2, l, a, n + 1)
  {
    hide WritableAt, In, View, RingsIn, Layout.Valid;
  }

  lemma UndisturbedIsHarmless(m: seq<byte>, l: Layout, a: u16, n: nat)
    requires l.Valid() && RingsIn(m, l) && Undisturbed(m, l, a, n)
    ensures Harmless(m, l, a, n)
  {
    hide View, TableOf, Head, WalkChain, Avoids;
    forall k | 0 <= k < n ensures HarmlessChain(l, TableOf(m, l), Head(m, l, a, k)) {
      assert AllAvoid(l, WritableAt(m, l, a, k));
    }
  }

  /** The main result on a pass over `n` chains that lie outside the rings and do not write into each other:
      `work` is asked exactly what the readable buffers of the accepted chains held when the pass began, in
      order; each answer is delivered into the chain's own writable buffers and reported by its completion;
      refused chains are completed with length 0; and no other byte outside the rings changes. */
  lemma {:induction false} PassServes(l: Layout, p: Pass, work: Work, n: nat)
    requires l.Valid() && RingsIn(p.mem, l) && p.completed == []
    requires Undisturbed(p.mem, l, p.dev.nextAvail, n)
    ensures Serves(l, p, Drain(l, p, work, n), work, n)
  {
    hide View, TableOf, Head, HarmlessChain, ServeNext, Serves, Drained, ReadableAt, WritableAt, AllAvoid, AllApart;
    if n == 0 {
      ServesNone(l, p, work);
    } else {
      PassServes(l, p, work, n - 1);
      UndisturbedIsHarmless(p.mem, l, p.dev.nextAvail, n - 1);
      DrainExact(l, p, work, n - 1);
      ServesStep(l, p, Drain(l, p, work, n - 1), work, n - 1);
    }
  }

  lemma ServesNone(l: Layout, p: Pass, work: Work)
    requires l.Valid() && RingsIn(p.mem, l) && p.completed == []
    ensures Serves(l, p, p, work, 0)
  {
    hide View, WritableAt, ServedAt;
  }

  // ---------------------------------------------------------------- lengths, whatever overlaps

  /** What the completion of the `k`-th chain of a pass reports: of a refused chain nothing, of an accepted one
      what could be stored of the answer to the request its buffers held when its turn came. */
  ghost predicate Reported(l: Layout, p: Pass, work: Work, k: nat, len: nat)
    requires l.Valid() && RingsIn(p.mem, l)
  {
    var q, a := Drain(l, p, work, k), p.dev.nextAvail;
    if ChainAt(p.mem, l, a, k).error.Some? then len == 0
    else
      var response := work(q.requests + [RequestIn(q.mem, ReadableAt(p.mem, l, a, k))]);
      exists failure: Option<MemError> :: Ends(WritableAt(p.mem, l, a, k), |p.mem|, |response|, len, failure)
  }

  lemma TurnReports(l: Layout, p: Pass, work: Work, n: nat)
    requires l.Valid() && RingsIn(p.mem, l) && p.completed == [] && Harmless(p.mem, l, p.dev.nextAvail, n)
    ensures var q := Drain(l, p, work, n);
      Reported(l, p, work, n, Last(ServeNext(l, q, work)).1)
  {
    hide View, TableOf, Head, WalkChain, Serve, PutUsed, Readable, Writable, RequestIn, Ends, Drain, Wrap, Slot,
      HarmlessChain;
    var q, t, head := Drain(l, p, work, n), TableOf(p.mem, l), Head(p.mem, l, p.dev.nextAvail, n);
    DrainExact(l, p, work, n);
    HeadShift(p.mem, q.mem, l, p.dev.nextAvail, n);
    if WalkChain(t, head).error.Some? {
      ServeRefused(q.mem, t, head, work, q.requests, q.stats);
    } else {
      ServeExact(q.mem, t, head, work, q.requests, q.stats);
      var s, ds := Serve(q.mem, t, head, work, q.requests, q.stats), WalkChain(t, head).descs;
      var response := work(q.requests + [RequestIn(q.mem, Readable(ds))]);
      var failure: Option<MemError> :| Ends(Writable(ds), |q.mem|, |response|, s.len, failure);
      assert |q.mem| == |p.mem|;
      assert ServeNext(l, q, work).completed == q.completed + [(head, s.len)];
      assert Ends(WritableAt(p.mem, l, p.dev.nextAvail, n), |p.mem|, |response|, s.len, failure);
    }
  }

  /** Every completion of a pass over chains that keep the device out of the rings reports exactly that. */
  lemma {:induction false} PassReports(l: Layout, p: Pass, work: Work, n: nat, k: nat)
    requires l.Valid() && RingsIn(p.mem, l) && p.completed == [] && Harmless(p.mem, l, p.dev.nextAvail, n) && k < n
    ensures var q := Drain(l, p, work, n); |q.completed| == n && Reported(l, p, work, k, q.completed[k].1)
  {
    hide View, TableOf, Head, HarmlessChain, ServeNext, Reported, Drain;
    DrainLast(l, p, work, n - 1);
    if k < n - 1 {
      PassReports(l, p, work, n - 1, k);
    } else {
      TurnReports(l, p, work, n - 1);
      DrainUnfolds(l, p, work, n - 1);
    }
  }

  lemma DrainUnfolds(l: Layout, p: Pass, work: Work, n: nat)
    requires l.Valid() && RingsIn(p.mem, l)
    ensures Drain(l, p, work, n + 1) == ServeNext(l, Drain(l, p, work, n), work)
  {
    hide View, ServeNext;
  }

  // ---------------------------------------------------------------- turn by turn, whatever overlaps

  /** Outside the rings, `m'` has the first `n` bytes of the response at their places in the buffers, and otherwise
      what `m` has. */
  ghost predicate PlacedBeside(l: Layout, m: seq<byte>, m': seq<byte>, bs: Buffers, response: seq<byte>, n: nat)
    requires n <= |response| && n <= Length(bs)
  {
    |m'| == |m| && forall x: nat | x < |m| && !(l.descTable <= x < l.End()) ::
      && (NoneAt(bs, n, x) ==> m'[x] == m[x])
      && (forall c: nat | c < n && LastAt(bs, n, x, c) :: m'[x] == response[c])
  }

  /** Turn `k` of a pass, from `q` to `q'`: it takes the `k`-th chain available at the start. A refused one is
      completed with length 0, asks nothing and changes no byte outside the rings. Of an accepted one, `work` is
      asked what its readable buffers hold now; as much of the answer as can be stored is stored, at its places;
      no other byte outside the rings changes; and the completion reports that length. */
  ghost predicate TurnIs(l: Layout, p: Pass, q: Pass, q': Pass, work: Work, k: nat)
    requires l.Valid() && RingsIn(p.mem, l) && q'.completed != []
  {
    var a, (head, len) := p.dev.nextAvail, Last(q');
    var readable, bs := ReadableAt(p.mem, l, a, k), WritableAt(p.mem, l, a, k);
    && head == Head(p.mem, l, a, k) && |q'.mem| == |q.mem|
    && if ChainAt(p.mem, l, a, k).error.Some? then
         && len == 0 && q'.requests == q.requests
         && (forall x | 0 <= x < |q.mem| && !(l.descTable <= x < l.End()) :: q'.mem[x] == q.mem[x])
       else
         var request := RequestIn(q.mem, readable);
         var response := work(q.requests + [request]);
         && q'.requests == q.requests + [request]
         && len <= |response| && len <= Length(bs)
         && (exists failure: Option<MemError> :: Ends(bs, |q.mem|, |response|, len, failure))
         && PlacedBeside(l, q.mem, q'.mem, bs, response, len)
  }

  lemma TurnExact(l: Layout, p: Pass, work: Work, k: nat)
    requires l.Valid() && RingsIn(p.mem, l) && p.completed == [] && Harmless(p.mem, l, p.dev.nextAvail, k)
    ensures var q := Drain(l, p, work, k);
      ServeNext(l, q, work).completed != [] && TurnIs(l, p, q, ServeNext(l, q, work), work, k)
  {
    hide View, TableOf, Head, WalkChain, Serve, PutUsed, Readable, Writable, RequestIn, Ends, Drain, Wrap,
      Slot, HarmlessChain, Length, NoneAt, LastAt, Placed, PlacedBeside;
    var q, t, head := Drain(l, p, work, k), TableOf(p.mem, l), Head(p.mem, l, p.dev.nextAvail, k);
    DrainExact(l, p, work, k);
    HeadShift(p.mem, q.mem, l, p.dev.nextAvail, k);
    var s := Serve(q.mem, t, head, work, q.requests, q.stats);
    var q' := ServeNext(l, q, work);
    ViewOfPutUsed(s.mem, l, q.dev.nextUsed, head, s.len);
    assert q'.completed == q.completed + [(head, s.len)];
    if WalkChain(t, head).error.Some? {
      ServeRefused(q.mem, t, head, work, q.requests, q.stats);
    } else {
      ServeExact(q.mem, t, head, work, q.requests, q.stats);
      var bs := Writable(WalkChain(t, head).descs);
      PlacedOutside(l, q.mem, s.mem, q'.mem, bs, work(s.requests), s.len);
    }
  }

  lemma PlacedOutside(l: Layout, m: seq<byte>, m1: seq<byte>, m2: seq<byte>, bs: Buffers, response: seq<byte>, n: nat)
    requires n <= |response| && n <= Length(bs)
    requires Placed(m, m1, bs, response, n) && SameOutside(m1, m2, l.descTable, l.End())
    ensures PlacedBeside(l, m, m2, bs, response, n)
  {
    hide NoneAt, LastAt, Length;
    LastIsInResponse(bs, n);
  }

  /** The `k`-th of the `n` turns of a pass is as above, and its completion is the `k`-th of the pass. */
  ghost predicate TurnOf(l: Layout, p: Pass, work: Work, n: nat, k: nat)
    requires l.Valid() && RingsIn(p.mem, l) && k < n
  {
    var q, q' := Drain(l, p, work, k), Drain(l, p, work, k + 1);
    && |q'.completed| == k + 1 && q'.completed <= Drain(l, p, work, n).completed
    && TurnIs(l, p, q, q', work, k)
  }

  lemma {:induction false} CompletedGrows(l: Layout, p: Pass, work: Work, i: nat, n: nat)
    requires l.Valid() && RingsIn(p.mem, l) && i <= n
    ensures Drain(l, p, work, i).completed <= Drain(l, p, work, n).completed
    decreases n - i
  {
    hide View, ServeNext, Drain;
    if i < n {
      CompletedGrows(l, p, work, i, n - 1);
      DrainUnfolds(l, p, work, n - 1);
      ServeNextState(l, Drain(l, p, work, n - 1), work);
    }
  }

  lemma TurnOfPass(l: Layout, p: Pass, work: Work, n: nat, k: nat)
    requires l.Valid() && RingsIn(p.mem, l) && p.completed == [] && Harmless(p.mem, l, p.dev.nextAvail, n) && k < n
    ensures TurnOf(l, p, work, n, k)
  {
    hide View, TableOf, Head, HarmlessChain, ServeNext, TurnIs, Drain;
    TurnExact(l, p, work, k);
    DrainUnfolds(l, p, work, k);
    CompletedGrows(l, p, work, k + 1, n);
    DrainLast(l, p, work, k);
  }

  /** The whole of a pass over `n` chains that keep the device out of the rings, whatever else they overlap: in
      the rings exactly the completions appear, one for each chain in order; and each turn is as above. */
  lemma PassExact(l: Layout, p: Pass, work: Work, n: nat)
    requires l.Valid() && RingsIn(p.mem, l) && p.completed == [] && Harmless(p.mem, l, p.dev.nextAvail, n)
    ensures Drained(l, p, Drain(l, p, work, n), n)
    ensures forall k | 0 <= k < n :: TurnOf(l, p, work, n, k)
  {
    hide View, Harmless, Drained, TurnOf;
    DrainExact(l, p, work, n);
    forall k | 0 <= k < n ensures TurnOf(l, p, work, n, k) {
      TurnOfPass(l, p, work, n, k);
    }
  }

  // ---------------------------------------------------------------- a pass without complaints

  /** An accepted chain all of whose buffers lie in the region. */
  ghost predicate Sound(m: seq<byte>, l: Layout, a: u16, k: nat)
    requires l.Valid() && RingsIn(m, l)
  {
    ChainAt(m, l, a, k).error.None? && InRegion(m, ReadableAt(m, l, a, k)) && InRegion(m, WritableAt(m, l, a, k))
  }

  lemma TurnIsClean(l: Layout, p: Pass, work: Work, n: nat)
    requires l.Valid() && RingsIn(p.mem, l) && p.completed == [] && Harmless(p.mem, l, p.dev.nextAvail, n)
    requires Sound(p.mem, l, p.dev.nextAvail, n)
    ensures ServeNext(l, Drain(l, p, work, n), work).stats.rejected == Drain(l, p, work, n).stats.rejected
  {
    hide View, TableOf, Head, WalkChain, Serve, PutUsed, Readable, Writable, Ends, Drain, Wrap, Slot,
      HarmlessChain, Contents,
      Inside, Beyond;
    var q, t, head := Drain(l, p, work, n), TableOf(p.mem, l), Head(p.mem, l, p.dev.nextAvail, n);
    DrainExact(l, p, work, n);
    HeadShift(p.mem, q.mem, l, p.dev.nextAvail, n);
    ServeIsClean(q.mem, t, head, work, q.requests, q.stats);
  }

  lemma ServeIsClean(m: seq<byte>, t: Table, head: u16, work: Work, requests: seq<seq<byte>>, stats: ProcessStats)
    requires WalkChain(t, head).error == None
    requires InRegion(m, Readable(WalkChain(t, head).descs)) && InRegion(m, Writable(WalkChain(t, head).descs))
    ensures Serve(m, t, head, work, requests, stats).stats.rejected == stats.rejected
  {
    hide WalkChain, Serve, Readable, Writable, Ends, Contents, Inside, Beyond;
    var ds, s := WalkChain(t, head).descs, Serve(m, t, head, work, requests, stats);
    ServeExact(m, t, head, work, requests, stats);
    AllInside(m, Readable(ds));
    var response := work(requests + [RequestIn(m, Readable(ds))]);
    forall failure: Option<MemError> | Ends(Writable(ds), |m|, |response|, s.len, failure) ensures failure == None {
      InRegionEnds(m, Writable(ds), |response|, s.len, failure);
    }
  }

  /** A pass over such chains reports nothing. */
  lemma {:induction false} PassIsClean(l: Layout, p: Pass, work: Work, n: nat)
    requires l.Valid() && RingsIn(p.mem, l) && p.completed == [] && Harmless(p.mem, l, p.dev.nextAvail, n)
    requires forall k | 0 <= k < n :: Sound(p.mem, l, p.dev.nextAvail, k)
    ensures Drain(l, p, work, n).stats.rejected == p.stats.rejected
  {
    hide View, TableOf, Head, HarmlessChain, ServeNext, Sound;
    if n > 0 {
      hide Drain;
      PassIsClean(l, p, work, n - 1);
      TurnIsClean(l, p, work, n - 1);
      DrainUnfolds(l, p, work, n - 1);
    }
  }
}
