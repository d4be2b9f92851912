/** The limit of what is promised about a pass: it ends when no chain makes the device write over what the pass
    reads, and when one does it need not. */
module Overlap {
  import opened Words
  import opened Memory
  import opened VirtqLayout
  import opened Rings
  import opened ChainWalk
  import opened DeviceSpec
  import opened DeviceFacts
  import opened ScatterGather
  import opened Steadiness
  import opened Passes
  import R = RoundTrip
  import Drv = DriverSpec
  import DrvFacts = DriverFacts
  import Notify
  import Runs

  /** A part of a waiting chain's writable bytes: those of the `j`-th chain up to byte `x` of its `k`-th buffer. */
  datatype Part = Part(j: nat, k: nat, x: nat)

  ghost function Reached(bs: Buffers, part: Part): Buffers
    requires part.k < |bs| && part.x <= bs[part.k].1
  {
    bs[..part.k] + [(bs[part.k].0, part.x)]
  }

  /** That part lies in the region and contains both bytes of `avail.idx`. */
  ghost predicate ReachesIndex(l: Layout, m: seq<byte>, bs: Buffers, part: Part) {
    && part.k < |bs| && part.x <= bs[part.k].1 && InRegion(m, Reached(bs, part))
    && In(Reached(bs, part), l.At(AvailIdx)) && In(Reached(bs, part), l.At(AvailIdx) + 1)
  }

  /** The `j`-th chain waits, it is accepted, and such a part of it contains `avail.idx`. */
  ghost predicate IndexOverlapped(l: Layout, p: Pass, part: Part) {
    && l.Valid() && RingsIn(p.mem, l) && part.j < Pending(p.mem, l, p.dev)
    && var w := ChainAt(p.mem, l, p.dev.nextAvail, part.j);
       w.error.None? && ReachesIndex(l, p.mem, Writable(w.descs), part)
  }

  // ---------------------------------------------------------------- a device that renews the index

  /** How many of the first `n` chains from position `a` on are accepted, as the ring is gone round. */
  ghost function Accepted(m: seq<byte>, l: Layout, a: u16, n: nat): nat
    requires l.Valid() && RingsIn(m, l)
  {
    if n == 0 then 0
    else Accepted(m, l, a, n - 1) + (if ChainAt(m, l, a, n - 1).error.None? then 1 else 0)
  }

  lemma {:induction false} AcceptedGrows(m: seq<byte>, l: Layout, a: u16, i: nat, n: nat)
    requires l.Valid() && RingsIn(m, l) && i <= n
    ensures Accepted(m, l, a, i) <= Accepted(m, l, a, n)
    decreases n - i
  {
    hide ChainAt;
    if i < n {
      AcceptedGrows(m, l, a, i, n - 1);
    }
  }

  /** The ring is at that chain in turn `t`. */
  predicate IsBack(l: Layout, j: nat, t: nat)
    requires l.queueSize > 0
  {
    j <= t && (t - j) % l.queueSize == 0
  }

  /** The request numbered `r` is that of turn `t`, in which the ring is at that chain. */
  ghost predicate BackAgain(m: seq<byte>, l: Layout, a: u16, j: nat, r: nat, t: nat)
    requires l.Valid() && RingsIn(m, l)
  {
    IsBack(l, j, t) && ChainAt(m, l, a, t).error.None? && r == Accepted(m, l, a, t) + 1
  }

  /** What brings `avail.idx` to the number `v` and leaves everything else in these buffers as it was in `m`. */
  ghost function Renewal(m: seq<byte>, l: Layout, bs: Buffers, v: u16): (s: seq<byte>)
    requires l.Valid() && RingsIn(m, l) && InRegion(m, bs)
  {
    Widths();
    Contents(Put(m, l, AvailIdx, v), bs)
  }

  /** A device that, whenever it comes to that chain, moves `avail.idx` one round ahead, and otherwise
      answers nothing. */
  ghost function Renewing(l: Layout, p: Pass, part: Part): Work
    requires IndexOverlapped(l, p, part)
  {
    (requests: seq<seq<byte>>) => RenewingAnswer(l, p, part, |requests|)
  }

  ghost function RenewingAnswer(l: Layout, p: Pass, part: Part, r: nat): seq<byte>
    requires IndexOverlapped(l, p, part)
  {
    var m, a := p.mem, p.dev.nextAvail;
    if t: nat :| BackAgain(m, l, a, part.j, r, t) then
      Renewal(m, l, Reached(Writable(ChainAt(m, l, a, part.j).descs), part), Wrap(a + t + l.queueSize + 1))
    else []
  }

  lemma TurnsDiffer(m: seq<byte>, l: Layout, a: u16, t: nat, u: nat)
    requires l.Valid() && RingsIn(m, l) && t < u && ChainAt(m, l, a, t).error.None?
    ensures Accepted(m, l, a, t) < Accepted(m, l, a, u)
  {
    AcceptedGrows(m, l, a, t + 1, u);
    hide ChainAt;
  }

  /** The answer in turn `t`: the renewal when the ring is at that chain, and otherwise nothing. */
  lemma AnswerInTurn(l: Layout, p: Pass, part: Part, t: nat)
    requires IndexOverlapped(l, p, part) && ChainAt(p.mem, l, p.dev.nextAvail, t).error.None?
    ensures RenewingAnswer(l, p, part, Accepted(p.mem, l, p.dev.nextAvail, t) + 1) ==
      if IsBack(l, part.j, t)
      then Renewal(p.mem, l, Reached(Writable(ChainAt(p.mem, l, p.dev.nextAvail, part.j).descs), part),
                   Wrap(p.dev.nextAvail + t + l.queueSize + 1))
      else []
  {
    hide View, ChainAt, Accepted, Writable, Renewal, Reached, Wrap;
    var m, a, j := p.mem, p.dev.nextAvail, part.j;
    var r := Accepted(m, l, a, t) + 1;
    forall u: nat | BackAgain(m, l, a, j, r, u) ensures u == t {
      if u < t {
        TurnsDiffer(m, l, a, u, t);
      } else if t < u {
        TurnsDiffer(m, l, a, t, u);
      }
    }
    assert IsBack(l, j, t) ==> BackAgain(m, l, a, j, r, t);
  }

  // ---------------------------------------------------------------- what stays as the ring is gone round

  /** Outside `avail.idx` and the used ring, nothing has changed. */
  ghost predicate Kept(l: Layout, m: seq<byte>, m': seq<byte>) {
    |m'| == |m| && forall x | 0 <= x < |m|
        && !(l.At(AvailIdx) <= x < l.At(AvailIdx) + 2) && !(l.usedRing <= x < l.End()) :: m'[x] == m[x]
  }

  lemma NumKept(l: Layout, m: seq<byte>, m': seq<byte>, f: Field)
    requires l.Valid() && RingsIn(m, l) && Kept(l, m, m') && l.Has(f)
    requires f != AvailIdx && RingOf(f) != Used
    ensures Num(m', l, f) == Num(m, l, f)
  {
    hide Layout.At, Layout.Width, FromLE, RingOf;
    FieldInside(l, f);
    FieldsApart(l, f, AvailIdx);
    InRing(l, f);
    var a, n := l.At(f), l.Width(f);
    IndexWidth(l);
    assert m'[a..a + n] == m[a..a + n];
  }

  lemma IndexWidth(l: Layout)
    requires l.Valid()
    ensures l.Width(AvailIdx) == 2 && l.descTable <= l.At(AvailIdx) && l.At(AvailIdx) + 2 <= l.usedRing
  {
  }

  lemma ChainsKept(l: Layout, m: seq<byte>, m': seq<byte>, a: u16, t: nat)
    requires l.Valid() && RingsIn(m, l) && |m'| == |m| && Kept(l, m, m')
    ensures TableOf(m', l) == TableOf(m, l) && Head(m', l, Wrap(a + t), 0) == Head(m, l, a, t)
  {
    hide Num, Layout.At, Layout.Width, Slot, Wrap, Kept;
    var r, r' := View(m, l), View(m', l);
    forall i | 0 <= i < l.queueSize ensures r'.table[i] == r.table[i] {
      NumKept(l, m, m', DescAddr(i));
      NumKept(l, m, m', DescLen(i));
      NumKept(l, m, m', DescFlags(i));
      NumKept(l, m, m', DescNext(i));
    }
    forall i | 0 <= i < l.queueSize ensures r'.availRing[i] == r.availRing[i] {
      NumKept(l, m, m', AvailSlot(i));
    }
    TableOfView(m, l);
    TableOfView(m', l);
    assert r'.table == r.table && r'.availRing == r.availRing;
    WrapAgain(a, t);
  }

  lemma WrapAgain(a: u16, t: nat)
    ensures Wrap(Wrap(a + t) + 0) == Wrap(a + t)
  {
  }

  lemma RoundsLeaveRemainder(x: nat, rounds: nat, qs: nat)
    requires qs > 0 && rounds % qs == 0
    ensures (x + rounds) % qs == x % qs
  {
    var q, k := rounds / qs, x / qs;
    assert x + rounds == qs * k + x % qs + qs * q == qs * (k + q) + x % qs;
    DivideOnce(x + rounds, qs, k + q, x % qs);
  }

  /** A whole number of rounds later the ring is back at the same chain. */
  lemma RoundTheRing(m: seq<byte>, l: Layout, a: u16, j: nat, t: nat)
    requires l.Valid() && RingsIn(m, l) && IsBack(l, j, t)
    ensures Head(m, l, a, t) == Head(m, l, a, j)
  {
    hide View, PowerOfTwo;
    WrapKeepsSlot(a + t, l.queueSize);
    WrapKeepsSlot(a + j, l.queueSize);
    RoundsLeaveRemainder(a + j, t - j, l.queueSize);
    hide Wrap;
    assert a + t == a + j + (t - j);
  }

  lemma UsedKept(l: Layout, m0: seq<byte>, m: seq<byte>, n: u16, head: u16, len: u32)
    requires l.Valid() && RingsIn(m0, l) && Kept(l, m0, m)
    ensures Kept(l, m0, PutUsed(m, l, n, head, len))
    ensures View(PutUsed(m, l, n, head, len), l).availIdx == View(m, l).availIdx
  {
    hide View;
    ViewOfPutUsed(m, l, n, head, len);
    var slot := Slot(n, l.queueSize);
    var m1 := Put(m, l, UsedId(slot), head);
    var m2 := Put(m1, l, UsedLen(slot), len);
    PutInUsed(l, m, UsedId(slot), head);
    PutInUsed(l, m1, UsedLen(slot), len);
    PutInUsed(l, m2, UsedIdx, Wrap(n + 1));
    hide Put, Slot, Layout.At;
  }

  lemma PutInUsed(l: Layout, m: seq<byte>, f: Field, v: nat)
    requires l.Valid() && RingsIn(m, l) && l.Has(f) && RingOf(f) == Used
    ensures forall x | 0 <= x < |m| && !(l.usedRing <= x < l.End()) :: Put(m, l, f, v)[x] == m[x]
  {
    hide Layout.At, Layout.Width, RingOf, Layout.Has;
    FieldInside(l, f);
    InRing(l, f);
  }

  // ---------------------------------------------------------------- turns

  lemma {:induction false} NoneIn(bs: Buffers, p: nat)
    requires Length(bs) == 0
    ensures !In(bs, p)
  {
    if bs != [] {
      NoneIn(bs[1..], p);
      assert bs == [bs[0]] + bs[1..] && !InBuffer(bs[0], p);
    }
  }

  lemma InCons(b: (u64, u32), tail: Buffers, p: nat)
    ensures In([b] + tail, p) <==> InBuffer(b, p) || In(tail, p)
  {
    if In([b] + tail, p) {
      var c :| c in [b] + tail && InBuffer(c, p);
      assert c == b || c in tail;
    }
    assert b in [b] + tail && forall c | c in tail :: c in [b] + tail;
  }

  /** Where the part lies in the region, storing the contents that `target` has there brings exactly those bytes
      to what `target` has, however the buffers overlap. */
  lemma {:induction false} ScatterReached(m: seq<byte>, bs: Buffers, part: Part, target: seq<byte>, p: nat)
    requires |target| == |m| && part.k < |bs| && part.x <= bs[part.k].1 && InRegion(m, Reached(bs, part)) && p < |m|
    ensures InRegion(target, Reached(bs, part))
    ensures Scatter(m, bs, Contents(target, Reached(bs, part))).mem[p]
      == if In(Reached(bs, part), p) then target[p] else m[p]
    decreases |bs|
  {
    hide In, Scatter, Contents, Patch, Reached, InRegion;
    ReachedIn(m, target, bs, part);
    ReachedFirst(target, bs, part);
    if part.k == 0 {
      LastReached(m, bs, part.x, target, p);
    } else {
      var part' := part.(k := part.k - 1);
      var b, tail := bs[0], Reached(bs[1..], part');
      InCons(b, tail, p);
      ContentsCons(target, b, tail);
      var m1 := Patch(m, b.0, target[b.0..b.0 + b.1]);
      ReachedIn(target, m1, bs[1..], part');
      ScatterReached(m1, bs[1..], part', target, p);
      PatchedTo(m, b, target, p);
      FirstReached(m, bs, b, tail, target, p);
    }
  }

  /** The part begins with the first buffer, of which it is all or, if there is no other, a beginning. */
  lemma ReachedFirst(m: seq<byte>, bs: Buffers, part: Part)
    requires part.k < |bs| && part.x <= bs[part.k].1 && InRegion(m, Reached(bs, part))
    ensures part.k == 0 ==> Reached(bs, part) == [(bs[0].0, part.x)] && bs[0].0 + part.x <= |m|
    ensures part.k > 0 ==>
      var part' := part.(k := part.k - 1);
      && part.x <= bs[1..][part'.k].1 && Reached(bs, part) == [bs[0]] + Reached(bs[1..], part')
      && bs[0].0 + bs[0].1 <= |m| && InRegion(m, Reached(bs[1..], part'))
  {
    var r := Reached(bs, part);
    assert r[0] in r;
    if part.k > 0 {
      var tail := Reached(bs[1..], part.(k := part.k - 1));
      assert bs[..part.k] == [bs[0]] + bs[1..][..part.k - 1];
      assert r == [bs[0]] + tail && r[0] == bs[0];
      assert forall b | b in tail :: b in r;
    }
  }

  lemma PatchedTo(m: seq<byte>, b: (u64, u32), target: seq<byte>, p: nat)
    requires b.0 + b.1 <= |m| == |target| && p < |m|
    ensures Patch(m, b.0, target[b.0..b.0 + b.1])[p] == if InBuffer(b, p) then target[p] else m[p]
  {
    PatchAt(m, b.0, target[b.0..b.0 + b.1], p);
    hide Patch;
  }

  lemma LastReached(m: seq<byte>, bs: Buffers, x: nat, target: seq<byte>, p: nat)
    requires bs != [] && x <= bs[0].1 && bs[0].0 + x <= |m| == |target| && p < |m|
    ensures InRegion(target, [(bs[0].0, x)])
    ensures Scatter(m, bs, Contents(target, [(bs[0].0, x)])).mem[p]
      == if In([(bs[0].0, x)], p) then target[p] else m[p]
  {
    hide In, Contents, Scatter, Patch;
    var b: (u64, u32) := (bs[0].0, x);
    OneReached(target, b, p);
    if x == 0 {
      ScatterNothing(m, bs);
    } else {
      ScatterWhole(m, bs, target[b.0..b.0 + b.1]);
      PatchedTo(m, b, target, p);
    }
  }

  lemma OneReached(m: seq<byte>, b: (u64, u32), p: nat)
    requires b.0 + b.1 <= |m|
    ensures InRegion(m, [b]) && Contents(m, [b]) == m[b.0..b.0 + b.1] && (In([b], p) <==> InBuffer(b, p))
  {
    hide In, Contents;
    InCons(b, [], p);
    NoneIn([], p);
    assert [b] + [] == [b];
    ContentsOfOne(m, b);
  }

  /** What the first buffer and the others are brought to, together. */
  lemma FirstReached(m: seq<byte>, bs: Buffers, b: (u64, u32), tail: Buffers, target: seq<byte>, p: nat)
    requires bs != [] && bs[0] == b && b.0 + b.1 <= |m| == |target| && InRegion(target, tail) && p < |m|
    requires InRegion(target, [b] + tail)
    requires Contents(target, [b] + tail) == target[b.0..b.0 + b.1] + Contents(target, tail)
    requires In([b] + tail, p) <==> InBuffer(b, p) || In(tail, p)
    requires var m1 := Patch(m, b.0, target[b.0..b.0 + b.1]);
      && m1[p] == (if InBuffer(b, p) then target[p] else m[p])
      && Scatter(m1, bs[1..], Contents(target, tail)).mem[p] == if In(tail, p) then target[p] else m1[p]
    ensures Scatter(m, bs, Contents(target, [b] + tail)).mem[p] == if In([b] + tail, p) then target[p] else m[p]
  {
    hide In, Contents, Scatter, Patch, InRegion, InBuffer;
    var rest := Contents(target, tail);
    if |target[b.0..b.0 + b.1] + rest| == 0 {
      NoneIn([b] + tail, p);
      ScatterNothing(m, bs);
    } else {
      FirstStored(m, bs, b, target, rest);
    }
  }

  lemma PatchAt(m: seq<byte>, a: nat, data: seq<byte>, p: nat)
    requires a + |data| <= |m| && p < |m|
    ensures Patch(m, a, data)[p] == if a <= p < a + |data| then data[p - a] else m[p]
  {
  }

  /** The first of several buffers takes its share, and the others what follows. */
  lemma FirstStored(m: seq<byte>, bs: Buffers, b: (u64, u32), target: seq<byte>, rest: seq<byte>)
    requires bs != [] && bs[0] == b && b.0 + b.1 <= |m| == |target|
    requires target[b.0..b.0 + b.1] + rest != []
    ensures Scatter(m, bs, target[b.0..b.0 + b.1] + rest).mem
      == Scatter(Patch(m, b.0, target[b.0..b.0 + b.1]), bs[1..], rest).mem
  {
    hide Patch;
    var first := target[b.0..b.0 + b.1];
    var answer := first + rest;
    assert Min(b.1, |answer|) == |first| && answer[..|first|] == first && answer[|first|..] == rest;
  }

  /** An answer that fits the first buffer goes there entirely. */
  lemma ScatterWhole(m: seq<byte>, bs: Buffers, answer: seq<byte>)
    requires bs != [] && 0 < |answer| <= bs[0].1 && bs[0].0 + |answer| <= |m|
    ensures Scatter(m, bs, answer) == Scattered(Patch(m, bs[0].0, answer), |answer|, None)
  {
    assert answer[..|answer|] == answer && answer[|answer|..] == [];
    ScatterNothing(Patch(m, bs[0].0, answer), bs[1..]);
    hide Patch;
  }

  /** Storing the renewal sets the index and nothing else. */
  lemma RenewalStored(l: Layout, m0: seq<byte>, m: seq<byte>, bs: Buffers, part: Part, v: u16)
    requires l.Valid() && RingsIn(m0, l) && |m| == |m0| && Kept(l, m0, m) && ReachesIndex(l, m0, bs, part)
    ensures var s := Scatter(m, bs, Renewal(m0, l, Reached(bs, part), v));
      Kept(l, m0, s.mem) && View(s.mem, l).availIdx == v
  {
    hide Scatter, Contents, Reached, View, Put, In, Layout.At, Num, InRegion;
    Widths();
    IndexWidth(l);
    var target := Put(m0, l, AvailIdx, v);
    ReachedIn(m0, target, bs, part);
    ReachedIn(m0, m, bs, part);
    var s := Scatter(m, bs, Contents(target, Reached(bs, part)));
    forall x | 0 <= x < |m|
      ensures s.mem[x] == if In(Reached(bs, part), x) then target[x] else m[x]
      ensures !(l.At(AvailIdx) <= x < l.At(AvailIdx) + 2) ==> target[x] == m0[x]
    {
      ScatterReached(m, bs, part, target, x);
      if !(l.At(AvailIdx) <= x < l.At(AvailIdx) + 2) {
        PutTouches(m0, l, AvailIdx, v, x);
      }
    }
    SameIndex(l, target, s.mem);
    NumOfPut(m0, l, AvailIdx, v, AvailIdx);
    ViewScalars(s.mem, l);
  }

  lemma ReachedIn(m: seq<byte>, m': seq<byte>, bs: Buffers, part: Part)
    requires part.k < |bs| && part.x <= bs[part.k].1 && |m'| == |m| && InRegion(m, Reached(bs, part))
    ensures InRegion(m', Reached(bs, part))
  {
  }

  lemma SameIndex(l: Layout, m: seq<byte>, m': seq<byte>)
    requires l.Valid() && RingsIn(m, l) && |m'| == |m|
    requires m'[l.At(AvailIdx)] == m[l.At(AvailIdx)] && m'[l.At(AvailIdx) + 1] == m[l.At(AvailIdx) + 1]
    ensures Num(m', l, AvailIdx) == Num(m, l, AvailIdx)
  {
    IndexWidth(l);
    var a := l.At(AvailIdx);
    assert m'[a..a + 2] == m[a..a + 2];
  }

  /** The pass after `t` turns: it has gone on to the next position, the ring is as it was, and the index is
      where it was, or one past the end of the round that began with that chain. */
  ghost predicate GoingRound(l: Layout, p: Pass, q: Pass, j: nat, t: nat)
    requires l.Valid() && RingsIn(p.mem, l)
  {
    && q.dev.nextAvail == Wrap(p.dev.nextAvail + t)
    && |q.requests| == Accepted(p.mem, l, p.dev.nextAvail, t)
    && Kept(l, p.mem, q.mem)
    && View(q.mem, l).availIdx ==
         (if t <= j then View(p.mem, l).availIdx else Wrap(p.dev.nextAvail + j + RoundEnd(t - j, l.queueSize) + 1))
  }

  /** The first number of turns, from `t` on, that makes whole rounds. */
  function RoundEnd(t: nat, qs: nat): (e: nat)
    requires qs > 0
    ensures t <= e < t + qs
  {
    if t % qs == 0 then t else t + qs - t % qs
  }

  lemma NextRoundEnd(t: nat, qs: nat)
    requires qs > 0
    ensures RoundEnd(t + 1, qs) == if t % qs == 0 then t + qs else RoundEnd(t, qs)
  {
    var k, i := t / qs, t % qs;
    assert t == qs * k + i;
    if i + 1 < qs {
      DivideOnce(t + 1, qs, k, i + 1);
    } else {
      assert t + 1 == qs * (k + 1) + 0;
      DivideOnce(t + 1, qs, k + 1, 0);
    }
  }

  /** What the turn stores, before its completion is published. */
  lemma TurnStores(l: Layout, p: Pass, q: Pass, part: Part, t: nat)
    requires IndexOverlapped(l, p, part) && p.requests == [] && GoingRound(l, p, q, part.j, t)
    ensures var head := Head(p.mem, l, p.dev.nextAvail, t);
      var s := Serve(q.mem, TableOf(p.mem, l), head, Renewing(l, p, part), q.requests, q.stats);
      && Kept(l, p.mem, s.mem)
      && |s.requests| == Accepted(p.mem, l, p.dev.nextAvail, t + 1)
      && View(s.mem, l).availIdx ==
           if IsBack(l, part.j, t) then Wrap(p.dev.nextAvail + t + l.queueSize + 1) else View(q.mem, l).availIdx
  {
    hide View, WalkChain, TableOf, Head, Gather, Scatter, Renewal, Readable, Writable, Wrap, RoundEnd,
      RenewingAnswer, ReachesIndex, Reached, BackAgain;
    var m, a := p.mem, p.dev.nextAvail;
    var w := ChainAt(m, l, a, t);
    if IsBack(l, part.j, t) {
      RoundTheRing(m, l, a, part.j, t);
    }
    if w.error.None? {
      AnswerInTurn(l, p, part, t);
      var requests' := q.requests + [Gather(q.mem, Readable(w.descs)).request];
      assert Renewing(l, p, part)(requests') == RenewingAnswer(l, p, part, Accepted(m, l, a, t) + 1);
      if IsBack(l, part.j, t) {
        RenewalStored(l, m, q.mem, Writable(w.descs), part, Wrap(a + t + l.queueSize + 1));
      } else {
        ScatterNothing(q.mem, Writable(w.descs));
      }
    }
  }

  lemma ScatterNothing(m: seq<byte>, bs: Buffers)
    ensures Scatter(m, bs, []) == Scattered(m, 0, None)
  {
  }

  lemma TurnGoesRound(l: Layout, p: Pass, q: Pass, part: Part, t: nat)
    requires IndexOverlapped(l, p, part) && p.requests == [] && |q.mem| == |p.mem| && GoingRound(l, p, q, part.j, t)
    ensures GoingRound(l, p, ServeNext(l, q, Renewing(l, p, part)), part.j, t + 1)
  {
    hide View, WalkChain, TableOf, Head, Serve, PutUsed, Kept, Accepted, ChainAt, RoundEnd, Wrap, Renewing;
    ChainsKept(l, p.mem, q.mem, p.dev.nextAvail, t);
    TurnStores(l, p, q, part, t);
    var head := Head(p.mem, l, p.dev.nextAvail, t);
    var s := Serve(q.mem, TableOf(p.mem, l), head, Renewing(l, p, part), q.requests, q.stats);
    UsedKept(l, p.mem, s.mem, q.dev.nextUsed, head, s.len);
    if part.j <= t {
      NextRoundEnd(t - part.j, l.queueSize);
    }
    WrapDistance(p.dev.nextAvail + t, 1);
    assert 0 % l.queueSize == 0;
  }

  lemma {:induction false} GoesRound(l: Layout, p: Pass, part: Part, t: nat)
    requires l.Valid() && RingsIn(p.mem, l) && IndexOverlapped(l, p, part) && p.requests == []
    ensures GoingRound(l, p, Drain(l, p, Renewing(l, p, part), t), part.j, t)
  {
    hide View, ServeNext, Renewing, IndexOverlapped, GoingRound;
    if t == 0 {
      StartsRound(l, p, part.j);
    } else {
      GoesRound(l, p, part, t - 1);
      TurnGoesRound(l, p, Drain(l, p, Renewing(l, p, part), t - 1), part, t - 1);
    }
  }

  lemma StartsRound(l: Layout, p: Pass, j: nat)
    requires l.Valid() && RingsIn(p.mem, l) && p.requests == []
    ensures GoingRound(l, p, p, j, 0)
  {
    hide View;
  }

  lemma StillAhead(a: u16, t: nat, e: nat)
    requires t <= e < t + 32768
    ensures Wrap(Wrap(a + e + 1) - Wrap(a + t)) == e + 1 - t
  {
    hide Wrap;
    WrapDistance(a + e + 1, a + t);
    Notify.WrapSmall(e + 1 - t);
  }

  lemma NotYetThere(v: u16, a: u16, t: nat)
    requires t < Wrap(v - a)
    ensures Wrap(v - Wrap(a + t)) == Wrap(v - a) - t
  {
  }

  /** The `n`-th turn of the pass still finds a chain. */
  ghost predicate StillPending(l: Layout, p: Pass, work: Work, n: nat)
    requires l.Valid() && RingsIn(p.mem, l)
  {
    var q := Drain(l, p, work, n);
    Pending(q.mem, l, q.dev) != 0
  }

  /** After `n` turns that served a chain comes another one. */
  ghost predicate GoesOn(l: Layout, p: Pass, work: Work, n: nat)
    requires l.Valid()
  {
    match After(l, p, work, n)
    case None => false
    case Some(q) => Turn(l, q, work).Continued?
  }

  ghost predicate NeverEnds(l: Layout, p: Pass, work: Work)
    requires l.Valid()
  {
    forall n: nat :: GoesOn(l, p, work, n)
  }

  /** While chains are pending, the turns of the pass are those of `Drain`. */
  lemma {:induction false} PendingGoesOn(l: Layout, p: Pass, work: Work, n: nat)
    requires l.Valid() && RingsIn(p.mem, l) && forall i: nat | i <= n :: StillPending(l, p, work, i)
    ensures After(l, p, work, n) == Some(Drain(l, p, work, n)) && GoesOn(l, p, work, n)
  {
    hide View, Turn, ServeNext, Pending;
    if n > 0 {
      PendingGoesOn(l, p, work, n - 1);
      TurnServes(l, Drain(l, p, work, n - 1), work);
    }
    assert StillPending(l, p, work, n);
    TurnServes(l, Drain(l, p, work, n), work);
  }

  /** Whatever else the region holds: if one of the waiting chains is accepted and some beginning of its writable
      bytes lies in the region and contains `avail.idx`, there is a closure with which the pass never ends. */
  lemma OverlapNeverEnds(l: Layout, p: Pass, part: Part)
    requires l.Valid() && RingsIn(p.mem, l) && IndexOverlapped(l, p, part) && p.requests == []
    ensures exists work: Work :: NeverEnds(l, p, work)
  {
    hide StillPending, IndexOverlapped, Renewing, GoesOn;
    var work := Renewing(l, p, part);
    forall n: nat ensures StillPending(l, p, work, n) {
      StaysPending(l, p, part, n);
    }
    forall n: nat ensures GoesOn(l, p, work, n) {
      PendingGoesOn(l, p, work, n);
    }
    assert NeverEnds(l, p, work);
  }

  lemma StaysPending(l: Layout, p: Pass, part: Part, n: nat)
    requires l.Valid() && RingsIn(p.mem, l) && IndexOverlapped(l, p, part) && p.requests == []
    ensures StillPending(l, p, Renewing(l, p, part), n)
  {
    hide View, Drain, Renewing, Kept, Wrap, ChainAt, RoundEnd;
    GoesRound(l, p, part, n);
    SizeBounds(l);
    if n <= part.j {
      NotYetThere(View(p.mem, l).availIdx, p.dev.nextAvail, n);
    } else {
      StillAhead(p.dev.nextAvail, n, part.j + RoundEnd(n - part.j, l.queueSize));
    }
  }

  // ---------------------------------------------------------------- such queues come about

  /** A driver that submits one two-byte writable buffer laid over `avail.idx` on a fresh queue has built one. */
  lemma DriverCanOverlap(l: Layout, m: seq<byte>)
    requires l.Valid() && RingsIn(m, l) && forall x | 0 <= x < |m| :: m[x] == 0
    ensures l.At(AvailIdx) < 0x1_0000_0000_0000_0000
    ensures var drv := DrvFacts.NewDriver(l.queueSize);
      && 0 < |drv.free| && Drv.Partition(l.queueSize, drv.free, drv.outstanding)
      && var m' := DrvFacts.SubmitMem(l, m, drv, [Drv.Buffer(l.At(AvailIdx), 2, true)]);
         IndexOverlapped(l, StartPass(m', DeviceState(0, 0, 0)), Part(0, 0, 2))
  {
    hide View, DrvFacts.SubmitMem, Drv.Partition, TableOf, WalkChain, Drv.Taken, DrvFacts.NewDriver, Slot;
    FieldInside(l, AvailIdx);
    SizeBounds(l);
    var drv, b := DrvFacts.NewDriver(l.queueSize), Drv.Buffer(l.At(AvailIdx), 2, true);
    DrvFacts.DescriptorsConserved(l.queueSize, []);
    FreshDriver(l.queueSize);
    var m' := DrvFacts.SubmitMem(l, m, drv, [b]);
    Runs.SubmitView(l, m, drv, [b]);
    var taken, t := Drv.Taken(drv.free, 1), View(m', l).table;
    TableOfView(m', l);
    assert R.Holds(t, taken, [b]);
    R.WalkHeld(t, taken, [b]);
    assert R.TotalLength([b]) == 2 by {
      assert [b][1..] == [];
    }
    OneWritable(WalkChain(OkTable(t), taken[0]).descs, b);
    OneReaches(l, m');
    assert Head(m', l, 0, 0) == taken[0];
  }

  lemma OneReaches(l: Layout, m: seq<byte>)
    requires l.Valid() && RingsIn(m, l)
    ensures l.At(AvailIdx) + 2 <= |m| && ReachesIndex(l, m, [(l.At(AvailIdx), 2)], Part(0, 0, 2))
  {
    FieldInside(l, AvailIdx);
    var b: (u64, u32) := (l.At(AvailIdx), 2);
    var r := Reached([b], Part(0, 0, 2));
    assert r == [b] && b in r && InBuffer(b, b.0) && InBuffer(b, b.0 + 1);
  }

  lemma FreshDriver(qs: nat)
    requires 0 < qs < 0x1_0000
    ensures var drv := DrvFacts.NewDriver(qs);
      && |drv.free| == qs && drv.availIdx == 0
      && DrvFacts.RunDriver(drv, []) == drv
  {
  }

  lemma OneWritable(ds: seq<Descriptor>, b: Drv.Buffer)
    requires R.BuffersOf(ds) == [b] && b.deviceWritable
    ensures Writable(ds) == [(b.addr, b.len)]
  {
    assert |ds| == 1 && R.BuffersOf(ds)[0] == R.BufferOf(ds[0]);
    assert ds[1..] == [];
  }
}
