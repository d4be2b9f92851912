/** The demonstration of the program, for any requests (toy-virtq-raw/src/main.rs:77-186): the driver publishes
    requests made of several pieces, the device answers them in one pass, and the driver reads the answers out
    of its own buffers. */
module Demo {
  import opened Words
  import opened Memory
  import opened VirtqLayout
  import opened Rings
  import opened ChainWalk
  import opened DriverSpec
  import opened DriverFacts
  import D = DeviceSpec
  import opened DeviceFacts
  import opened ScatterGather
  import opened Passes
  import opened RoundTrip
  import opened Queue
  import opened Runs
  import opened Results
  import opened Decisions
  import opened Arena
  import opened Handout
  import opened Session

  /** A piece of a request; it is short enough for its length to be 32 bits. */
  type Piece = s: seq<byte> | |s| < 0x1_0000_0000

  /** The pieces of a request, joined. */
  function Joined(parts: seq<Piece>): seq<byte> {
    if parts == [] then [] else Joined(parts[..|parts| - 1]) + parts[|parts| - 1]
  }

  // ---------------------------------------------------------------- room in the arena

  /** The arena has room for all of these allocations. */
  predicate AllFit(arena: u64, arenaEnd: u64, lens: seq<u32>)
    requires arenaEnd <= LAST_END
    decreases |lens|
  {
    lens == [] || (Bump(arena, arenaEnd, lens[0]).Some?
                   && AllFit(Bump(arena, arenaEnd, lens[0]).value.1, arenaEnd, lens[1..]))
  }

  lemma {:induction false} FitInTurn(arena: u64, arenaEnd: u64, a: seq<u32>, b: seq<u32>)
    requires arenaEnd <= LAST_END && AllFit(arena, arenaEnd, a + b)
    ensures AllFit(arena, arenaEnd, a) && AllFit(Pointer(arena, arenaEnd, a), arenaEnd, b)
    decreases |a|
  {
    if a == [] {
      assert a + b == b;
    } else {
      assert (a + b)[1..] == a[1..] + b;
      FitInTurn(Bump(arena, arenaEnd, a[0]).value.1, arenaEnd, a[1..], b);
    }
  }

  lemma FitFirst(arena: u64, arenaEnd: u64, lens: seq<u32>)
    requires arenaEnd <= LAST_END && lens != [] && AllFit(arena, arenaEnd, lens)
    ensures Bump(arena, arenaEnd, lens[0]).Some?
    ensures AllFit(Bump(arena, arenaEnd, lens[0]).value.1, arenaEnd, lens[1..])
    ensures Pointer(arena, arenaEnd, lens) == Pointer(Bump(arena, arenaEnd, lens[0]).value.1, arenaEnd, lens[1..])
  {
  }

  function Lens(parts: seq<Piece>): (s: seq<u32>)
    ensures |s| == |parts|
  {
    seq(|parts|, i requires 0 <= i < |parts| => |parts[i]| as u32)
  }

  /** What a request allocates: its pieces, and room for the reply. */
  function Needs(parts: seq<Piece>, reply: u32): seq<u32> {
    Lens(parts) + [reply]
  }

  function NeedsAll(requests: seq<seq<Piece>>, reply: u32): seq<u32> {
    if requests == [] then [] else Needs(requests[0], reply) + NeedsAll(requests[1..], reply)
  }

  /** How many descriptors the requests take. */
  function Descriptors(requests: seq<seq<Piece>>): nat {
    if requests == [] then 0 else |requests[0]| + 1 + Descriptors(requests[1..])
  }

  // ---------------------------------------------------------------- a chain that carries a request

  /** The readable buffers of the chain hold the request, and it has one writable buffer, for the reply. */
  ghost predicate Carries(m: seq<byte>, c: Chain, request: seq<byte>, reply: u32) {
    && Accepted(c)
    && InRegion(m, ReadableOf(c.buffers)) && Contents(m, ReadableOf(c.buffers)) == request
    && |WritableOf(c.buffers)| == 1 && WritableOf(c.buffers)[0].1 == reply && InRegion(m, WritableOf(c.buffers))
  }

  /** Every byte of these buffers is as it was. */
  ghost predicate SameIn(m: seq<byte>, m': seq<byte>, bs: D.Buffers) {
    |m'| == |m| && forall p: nat | p < |m| && In(bs, p) :: m'[p] == m[p]
  }

  lemma InMore(a: D.Buffers, b: D.Buffers, p: nat)
    ensures In(a, p) ==> In(a + b, p)
    ensures In(b, p) ==> In(a + b, p)
  {
    if In(a, p) {
      var x :| x in a && InBuffer(x, p);
      assert x in a + b;
    }
    if In(b, p) {
      var x :| x in b && InBuffer(x, p);
      assert x in a + b;
    }
  }

  lemma ContentsSame(m: seq<byte>, m': seq<byte>, bs: D.Buffers, all: D.Buffers)
    requires SameIn(m, m', all) && InRegion(m, bs) && forall b | b in bs :: b in all
    ensures InRegion(m', bs) && Contents(m', bs) == Contents(m, bs)
  {
    forall b, p: nat | b in bs && InBuffer(b, p) ensures m'[p] == m[p] {
      assert In(all, p);
    }
    ContentsKept(m, m', bs);
  }

  lemma CarriesOn(m: seq<byte>, m': seq<byte>, c: Chain, request: seq<byte>, reply: u32, all: D.Buffers)
    requires Carries(m, c, request, reply) && SameIn(m, m', all) && forall b | b in Pairs(c.buffers) :: b in all
    ensures Carries(m', c, request, reply)
  {
    forall b | b in ReadableOf(c.buffers) ensures b in all {
      HalvesAreParts(c.buffers, b);
    }
    ContentsSame(m, m', ReadableOf(c.buffers), all);
  }

  lemma {:induction false} PiecesAndReply(m: seq<byte>, pieces: seq<Buffer>, w: Buffer)
    requires (forall i | 0 <= i < |pieces| :: !pieces[i].deviceWritable) && w.deviceWritable
    ensures ReadableOf(pieces + [w]) == Pairs(pieces) && WritableOf(pieces + [w]) == [Pair(w)]
    ensures TotalLength(pieces + [w]) == D.Length(Pairs(pieces)) + w.len
    ensures WellOrdered(pieces + [w])
  {
    if pieces == [] {
      assert (pieces + [w])[1..] == [];
    } else {
      assert (pieces + [w])[1..] == pieces[1..] + [w];
      assert Pairs(pieces)[1..] == Pairs(pieces[1..]) && Pairs(pieces)[0] == Pair(pieces[0]);
      PiecesAndReply(m, pieces[1..], w);
    }
  }

  // ---------------------------------------------------------------- what allocating and publishing leave alone

  /** A new buffer is apart from all before it, and from the rings. */
  lemma NewBufferApart(l: Layout, arenaEnd: u64, lens: seq<u32>, given: D.Buffers, b: (u64, u32), p: nat)
    requires l.Valid() && ArenaStart(l) < 0x1_0000_0000_0000_0000 && arenaEnd <= LAST_END
    requires Allocations(ArenaStart(l), arenaEnd, lens) == given + [b]
    ensures b.0 + b.1 <= arenaEnd && D.Avoids(l, b)
    ensures In(given, p) ==> !InBuffer(b, p)
  {
    hide Allocations, ArenaStart, Layout.Valid;
    LowArenaRounds(ArenaStart(l), arenaEnd, lens);
    AllocationsSeparate(l, arenaEnd, lens);
    var a := given + [b];
    assert a[|given|] == b && b in a;
    if In(given, p) {
      var x :| x in given && InBuffer(x, p);
      var i :| 0 <= i < |given| && given[i] == x;
      assert a[i] == x;
    }
  }

  /** Handed-out buffers avoid the rings. */
  lemma HandedAvoid(l: Layout, arenaEnd: u64, lens: seq<u32>)
    requires l.Valid() && ArenaStart(l) < 0x1_0000_0000_0000_0000 && arenaEnd <= LAST_END
    ensures AllAvoid(l, Allocations(ArenaStart(l), arenaEnd, lens))
    ensures forall b | b in Allocations(ArenaStart(l), arenaEnd, lens) :: b.0 + b.1 <= arenaEnd
  {
    hide Allocations, ArenaStart, Layout.Valid;
    LowArenaRounds(ArenaStart(l), arenaEnd, lens);
    AllocationsSeparate(l, arenaEnd, lens);
  }

  /** Storing over one buffer leaves the others. */
  lemma StoreBeside(m: seq<byte>, a: nat, data: seq<byte>, bs: D.Buffers)
    requires a + |data| <= |m| && forall p: nat | p < |m| && In(bs, p) :: !(a <= p < a + |data|)
    ensures SameIn(m, Patch(m, a, data), bs)
  {
    hide In;
  }

  /** Publishing a chain leaves every buffer outside the rings. */
  lemma SubmitBeside(l: Layout, eventIdx: bool, w: World, buffers: seq<Buffer>, bs: D.Buffers)
    requires Good(l, w) && Honest(l, Submit(buffers)) && |buffers| <= |w.drv.free| && AllAvoid(l, bs)
    ensures SameIn(w.mem, Step(l, eventIdx, w, Submit(buffers)).mem, bs)
  {
    hide View, SubmitMem, In, D.Avoids, RingsInv, Taken;
    OwnedParts(l, w);
    SubmitView(l, w.mem, w.drv, buffers);
    var m' := SubmitMem(l, w.mem, w.drv, buffers);
    forall p: nat | p < |w.mem| && In(bs, p) ensures m'[p] == w.mem[p] {
      InAvoids(l, bs, p);
    }
  }

  // ---------------------------------------------------------------- the driver's part

  /** Only the region differs between these two states of a queue. */
  ghost predicate OnlyMemory(w: World, w': World) {
    w' == w.(mem := w'.mem)
  }

  /** The buffers hold the joined pieces. */
  ghost predicate Filled(m: seq<byte>, buffers: seq<Buffer>, data: seq<byte>) {
    && (forall i | 0 <= i < |buffers| :: !buffers[i].deviceWritable)
    && InRegion(m, Pairs(buffers)) && Contents(m, Pairs(buffers)) == data
  }

  lemma {:induction false} ContentsJoin(m: seq<byte>, a: D.Buffers, b: (u64, u32))
    requires InRegion(m, a) && b.0 + b.1 <= |m|
    ensures InRegion(m, a + [b]) && Contents(m, a + [b]) == Contents(m, a) + m[b.0..b.0 + b.1]
  {
    hide Contents;
    if a == [] {
      ContentsOfOne(m, b);
      assert a + [b] == [b];
      NothingBefore(m[b.0..b.0 + b.1]);
    } else {
      SplitFirst(m, a, b);
      hide InRegion;
      ContentsJoin(m, a[1..], b);
      ContentsCons(m, a[0], a[1..]);
      ContentsCons(m, a[0], a[1..] + [b]);
      Regroup(m[a[0].0..a[0].0 + a[0].1], Contents(m, a[1..]), m[b.0..b.0 + b.1],
              Contents(m, a[1..] + [b]), Contents(m, a), Contents(m, a + [b]));
    }
  }

  lemma Regroup(x: seq<byte>, y: seq<byte>, z: seq<byte>, yz: seq<byte>, xy: seq<byte>, xyz: seq<byte>)
    requires yz == y + z && xy == x + y && xyz == x + yz
    ensures xyz == xy + z
  {
    Associates(x, y, z);
  }

  lemma NothingBefore(x: seq<byte>)
    ensures [] + x == x
  {
  }

  lemma SplitFirst(m: seq<byte>, a: D.Buffers, b: (u64, u32))
    requires a != [] && InRegion(m, a) && b.0 + b.1 <= |m|
    ensures a == [a[0]] + a[1..] && a + [b] == [a[0]] + (a[1..] + [b])
    ensures InRegion(m, a[1..]) && InRegion(m, a[1..] + [b]) && a[0].0 + a[0].1 <= |m|
  {
    assert a[0] in a;
  }

  lemma PairsJoin(buffers: seq<Buffer>, b: Buffer)
    ensures Pairs(buffers + [b]) == Pairs(buffers) + [Pair(b)]
  {
  }

  /** One more piece stored over a buffer apart from the ones before. */
  lemma FillOneMore(m: seq<byte>, m': seq<byte>, buffers: seq<Buffer>, data: seq<byte>, a: u64, piece: Piece)
    requires a + |piece| <= |m| && m' == Patch(m, a, piece) && Filled(m, buffers, data)
    requires forall p: nat | p < |m| && In(Pairs(buffers), p) :: !(a <= p < a + |piece|)
    ensures Filled(m', buffers + [Buffer(a, |piece|, false)], data + piece)
  {
    hide Contents, Pairs, In;
    var b := Buffer(a, |piece|, false);
    StoreBeside(m, a, piece, Pairs(buffers));
    ContentsSame(m, m', Pairs(buffers), Pairs(buffers));
    ContentsJoin(m', Pairs(buffers), Pair(b));
    PairsJoin(buffers, b);
    assert m'[a..a + |piece|] == piece;
  }

  lemma SameOn(m: seq<byte>, m1: seq<byte>, m2: seq<byte>, bs: D.Buffers)
    requires SameIn(m, m1, bs) && SameIn(m1, m2, bs)
    ensures SameIn(m, m2, bs)
  {
    hide In;
  }

  /** What a store into a new buffer does. */
  lemma AfterAlloc(s: Session, m: seq<byte>, given: D.Buffers, a: u64, piece: Piece)
    requires s.Valid() && s.Handed() == given + [(a, |piece|)] && a + |piece| <= |m|
    ensures SameIn(m, Patch(m, a, piece), given)
    ensures forall p: nat | p < |m| && In(given, p) :: !(a <= p < a + |piece|)
  {
    hide Good, In, Allocations, ArenaStart, Patch, Layout.Valid;
    s.Parts();
    forall p: nat | p < |m| && In(given, p) ensures !(a <= p < a + |piece|) {
      NewBufferApart(s.layout, s.mem.buf.Length, s.lens, given, (a, |piece|), p);
    }
    StoreBeside(m, a, piece, given);
  }

  /** Allocates and fills one buffer. */
  method FillOne(s: Session, piece: Piece) returns (addr: u64)
    requires s.Valid() && Bump(s.driver.arena, s.mem.buf.Length, |piece|).Some?
    modifies s, s.driver`arena, s.mem.buf
    ensures s.Valid() && Bump(old(s.driver.arena), s.mem.buf.Length, |piece|) == Some((addr, s.driver.arena))
    ensures s.Handed() == old(s.Handed()) + [(addr, |piece|)]
    ensures addr + |piece| <= |old(s.world.mem)|
    ensures s.world == old(s.world).(mem := Patch(old(s.world.mem), addr, piece))
  {
    hide Good, View, Allocations, ArenaStart, Layout.Valid, Pointer, Patch, NextMultiple;
    var a := s.Alloc(piece);
    addr := a.value;
  }

  /** Allocates and fills a readable buffer for every piece. */
  method Fill(s: Session, parts: seq<Piece>) returns (buffers: seq<Buffer>)
    requires s.Valid() && AllFit(s.driver.arena, s.mem.buf.Length, Lens(parts))
    modifies s, s.driver`arena, s.mem.buf
    ensures s.Valid() && s.driver.arena == Pointer(old(s.driver.arena), s.mem.buf.Length, Lens(parts))
    ensures s.Handed() == old(s.Handed()) + Pairs(buffers)
    ensures OnlyMemory(old(s.world), s.world) && SameIn(old(s.world.mem), s.world.mem, old(s.Handed()))
    ensures Filled(s.world.mem, buffers, Joined(parts)) && |buffers| == |parts|
  {
    hide Good, View, In, Allocations, ArenaStart, Layout.Valid, AllFit, Pointer, Patch, Filled, Lens;
    ghost var w, given, end := s.world, s.Handed(), Pointer(s.driver.arena, s.mem.buf.Length, Lens(parts));
    buffers := [];
    NothingFilled(s.world.mem);
    LensFrom(parts, 0);
    assert s.Handed() == given + Pairs(buffers);
    hide Pairs, Joined, SameIn;
    for i := 0 to |parts|
      invariant s.Valid() && |buffers| == i
      invariant AllFit(s.driver.arena, s.mem.buf.Length, Lens(parts[i..]))
      invariant Pointer(s.driver.arena, s.mem.buf.Length, Lens(parts[i..])) == end
      invariant s.Handed() == given + Pairs(buffers)
      invariant OnlyMemory(w, s.world) && SameIn(w.mem, s.world.mem, given)
      invariant Filled(s.world.mem, buffers, Joined(parts[..i]))
    {
      LensFrom(parts, i);
      FitFirst(s.driver.arena, s.mem.buf.Length, Lens(parts[i..]));
      ghost var m := s.world.mem;
      ghost var handed := s.Handed();
      var addr := FillOne(s, parts[i]);
      FillStep(s, m, given, buffers, addr, parts, i);
      SameOn(w.mem, m, s.world.mem, given);
      buffers := buffers + [Buffer(addr, |parts[i]|, false)];
    }
    LensFrom(parts, |parts|);
    assert parts[..|parts|] == parts;
  }

  lemma NothingFilled(m: seq<byte>)
    ensures Filled(m, [], Joined([]))
  {
  }

  lemma LensFrom(parts: seq<Piece>, i: nat)
    requires i <= |parts|
    ensures i < |parts| ==> Lens(parts[i..]) == [|parts[i]| as u32] + Lens(parts[i + 1..])
    ensures i == |parts| ==> forall a: u64, e: u64 | e <= LAST_END :: Pointer(a, e, Lens(parts[i..])) == a
    ensures parts[0..] == parts
  {
  }

  lemma FillStep(s: Session, m: seq<byte>, given: D.Buffers, buffers: seq<Buffer>, a: u64, parts: seq<Piece>, i: nat)
    requires s.Valid() && i < |parts| && a + |parts[i]| <= |m| && s.world.mem == Patch(m, a, parts[i])
    requires s.Handed() == given + Pairs(buffers) + [(a, |parts[i]|)]
    requires Filled(m, buffers, Joined(parts[..i]))
    ensures SameIn(m, s.world.mem, given)
    ensures Filled(s.world.mem, buffers + [Buffer(a, |parts[i]|, false)], Joined(parts[..i + 1]))
    ensures s.Handed() == given + Pairs(buffers + [Buffer(a, |parts[i]|, false)])
  {
    hide Good, View, In, Allocations, ArenaStart, Layout.Valid, Patch, Filled, Pairs;
    AfterAlloc(s, m, given + Pairs(buffers), a, parts[i]);
    forall p: nat ensures In(given, p) || In(Pairs(buffers), p) ==> In(given + Pairs(buffers), p) {
      InMore(given, Pairs(buffers), p);
    }
    FillOneMore(m, s.world.mem, buffers, Joined(parts[..i]), a, parts[i]);
    assert parts[..i + 1][..i] == parts[..i];
    PairsJoin(buffers, Buffer(a, |parts[i]|, false));
  }

  /** The queue after publishing one chain more. */
  ghost predicate PublishedOne(w: World, w': World, c: Chain) {
    && w'.log == w.log.(published := w.log.published + [c])
    && |w'.drv.free| == |w.drv.free| - |c.buffers| && w'.dev == w.dev
  }

  lemma SubmitPublishes(l: Layout, eventIdx: bool, w: World, buffers: seq<Buffer>)
    requires Good(l, w) && Honest(l, Submit(buffers)) && |buffers| <= |w.drv.free|
    ensures PublishedOne(w, Step(l, eventIdx, w, Submit(buffers)), Chain(Taken(w.drv.free, |buffers|), buffers))
  {
    hide View, SubmitMem, RingsInv, Taken;
    StepKeeps(l, eventIdx, w, Submit(buffers));
  }

  /** The chain over these pieces and a reply buffer carries the request. */
  lemma PiecesCarry(m: seq<byte>, m': seq<byte>, pieces: seq<Buffer>, w: Buffer, data: seq<byte>, indices: seq<u16>)
    requires Filled(m, pieces, data) && w.deviceWritable && w.addr + w.len <= |m|
    requires |data| + w.len < 0x1_0000_0000 && SameIn(m, m', Pairs(pieces))
    ensures Carries(m', Chain(indices, pieces + [w]), data, w.len)
    ensures WellOrdered(pieces + [w]) && Pairs(pieces + [w]) == Pairs(pieces) + [Pair(w)]
  {
    hide Contents, Pairs, In, ReadableOf, WritableOf, TotalLength, D.Length;
    PiecesAndReply(m, pieces, w);
    PairsJoin(pieces, w);
    ContentsSame(m, m', Pairs(pieces), Pairs(pieces));
  }

  lemma ReplyHonest(s: Session, pieces: seq<Buffer>, w: Buffer, given: D.Buffers)
    requires s.Valid() && w.deviceWritable && WellOrdered(pieces + [w])
    requires forall i | 0 <= i < |pieces| :: !pieces[i].deviceWritable
    requires s.Handed() == given + Pairs(pieces) + [Pair(w)]
    ensures Honest(s.layout, Submit(pieces + [w])) && w.addr + w.len <= |s.world.mem|
    ensures AllAvoid(s.layout, given) && AllAvoid(s.layout, Pairs(pieces))
  {
    hide Good, View, Allocations, ArenaStart, Layout.Valid, Pairs, WellOrdered, D.Avoids;
    s.Parts();
    HandedAvoid(s.layout, s.mem.buf.Length, s.lens);
    assert Pair(w) in s.Handed();
    assert forall b | b in given || b in Pairs(pieces) :: b in s.Handed();
    assert forall b | b in pieces + [w] && b.deviceWritable :: b == w;
  }

  /** Publishes one request: its pieces, and a buffer for the reply. */
  method Send(s: Session, parts: seq<Piece>, reply: u32) returns (ghost c: Chain)
    requires s.Valid() && AllFit(s.driver.arena, s.mem.buf.Length, Needs(parts, reply))
    requires |parts| + 1 <= |s.world.drv.free| && |Joined(parts)| + reply < 0x1_0000_0000
    modifies s, s.driver, s.mem.buf
    ensures s.Valid() && s.driver.arena == Pointer(old(s.driver.arena), s.mem.buf.Length, Needs(parts, reply))
    ensures PublishedOne(old(s.world), s.world, c) && |c.buffers| == |parts| + 1
    ensures s.Handed() == old(s.Handed()) + Pairs(c.buffers)
    ensures SameIn(old(s.world.mem), s.world.mem, old(s.Handed()))
    ensures Carries(s.world.mem, c, Joined(parts), reply)
  {
    hide Good, View, In, Allocations, ArenaStart, Layout.Valid, AllFit, Pointer, Filled, Lens, Step, Honest, Carries,
      Partition, Taken, WellOrdered, Joined, SameIn, Pairs, D.Length, TotalLength, ReadableOf, WritableOf;
    ghost var given, w := s.Handed(), s.world;
    RoomForReply(s.driver.arena, s.mem.buf.Length, parts, reply);
    var pieces := Fill(s, parts);
    ghost var w1 := s.world;
    var addr := s.AllocUninit(reply);
    var b := Buffer(addr.value, reply, true);
    ghost var indices := Taken(w1.drv.free, |parts| + 1);
    FilledWell(w1.mem, pieces, Joined(parts));
    PiecesAndReply(w1.mem, pieces, b);
    ReplyHonest(s, pieces, b, given);
    SubmitBeside(s.layout, s.eventIdx, w1, pieces + [b], given);
    SubmitBeside(s.layout, s.eventIdx, w1, pieces + [b], Pairs(pieces));
    SubmitPublishes(s.layout, s.eventIdx, w1, pieces + [b]);
    var head := s.Submit(pieces + [b]);
    c := Chain(indices, pieces + [b]);
    SameOn(w.mem, w1.mem, s.world.mem, given);
    PiecesCarry(w1.mem, s.world.mem, pieces, b, Joined(parts), indices);
  }

  lemma RoomForReply(arena: u64, end: u64, parts: seq<Piece>, reply: u32)
    requires end <= LAST_END && AllFit(arena, end, Needs(parts, reply))
    ensures AllFit(arena, end, Lens(parts))
    ensures match Bump(Pointer(arena, end, Lens(parts)), end, reply)
      case None => false
      case Some((_, next)) => next == Pointer(arena, end, Needs(parts, reply))
  {
    FitInTurn(arena, end, Lens(parts), [reply]);
    OneMoreRequest(arena, end, Lens(parts), reply);
  }

  lemma FilledWell(m: seq<byte>, pieces: seq<Buffer>, data: seq<byte>)
    requires Filled(m, pieces, data)
    ensures forall i | 0 <= i < |pieces| :: !pieces[i].deviceWritable
  {
  }

  /** What the requests say, joined. */
  function AllJoined(requests: seq<seq<Piece>>): (wants: seq<seq<byte>>)
    ensures |wants| == |requests|
  {
    seq(|requests|, i requires 0 <= i < |requests| => Joined(requests[i]))
  }

  ghost predicate AllCarry(m: seq<byte>, chains: seq<Chain>, wants: seq<seq<byte>>, reply: u32) {
    |chains| <= |wants| && forall k | 0 <= k < |chains| :: Carries(m, chains[k], wants[k], reply)
  }

  lemma CarryOneMore(m: seq<byte>, m': seq<byte>, chains: seq<Chain>, c: Chain, wants: seq<seq<byte>>, reply: u32,
                     given: D.Buffers)
    requires AllCarry(m, chains, wants, reply) && |chains| < |wants|
    requires SameIn(m, m', given + Flat(chains)) && Carries(m', c, wants[|chains|], reply)
    ensures AllCarry(m', chains + [c], wants, reply)
  {
    hide Carries, Pairs, SameIn, Flat;
    forall k | 0 <= k < |chains| ensures Carries(m', chains[k], wants[k], reply) {
      CarriesStill(m, m', chains, k, wants[k], reply, given);
    }
  }

  lemma FlatAfter(given: D.Buffers, chains: seq<Chain>, c: Chain)
    ensures given + Flat(chains + [c]) == given + Flat(chains) + Pairs(c.buffers)
  {
    hide Pairs, Flat;
    FlatMore(chains, c);
    Associates(given, Flat(chains), Pairs(c.buffers));
  }

  lemma CarriesStill(m: seq<byte>, m': seq<byte>, chains: seq<Chain>, k: nat, request: seq<byte>, reply: u32,
                     given: D.Buffers)
    requires k < |chains| && Carries(m, chains[k], request, reply) && SameIn(m, m', given + Flat(chains))
    ensures Carries(m', chains[k], request, reply)
  {
    hide Carries, Pairs, SameIn, Flat;
    forall b | b in Pairs(chains[k].buffers) ensures b in given + Flat(chains) {
      InFlat(chains, k, b);
    }
    CarriesOn(m, m', chains[k], request, reply, given + Flat(chains));
  }

  lemma RoomForRest(arena: u64, end: u64, requests: seq<seq<Piece>>, reply: u32)
    requires end <= LAST_END && requests != [] && AllFit(arena, end, NeedsAll(requests, reply))
    ensures AllFit(arena, end, Needs(requests[0], reply))
    ensures AllFit(Pointer(arena, end, Needs(requests[0], reply)), end, NeedsAll(requests[1..], reply))
  {
    FitInTurn(arena, end, Needs(requests[0], reply), NeedsAll(requests[1..], reply));
  }

  /** Publishes every request. */
  method SendAll(s: Session, requests: seq<seq<Piece>>, reply: u32) returns (ghost chains: seq<Chain>)
    requires s.Valid() && AllFit(s.driver.arena, s.mem.buf.Length, NeedsAll(requests, reply))
    requires Descriptors(requests) <= |s.world.drv.free|
    requires forall i | 0 <= i < |requests| :: |Joined(requests[i])| + reply < 0x1_0000_0000
    modifies s, s.driver, s.mem.buf
    ensures s.Valid() && |chains| == |requests| && AllCarry(s.world.mem, chains, AllJoined(requests), reply)
    ensures s.world.log == old(s.world.log).(published := old(s.world.log.published) + chains)
    ensures s.Handed() == old(s.Handed()) + Flat(chains)
  {
    hide Good, View, In, Allocations, ArenaStart, Layout.Valid, AllFit, Pointer, Carries, Joined, Needs, Pairs;
    ghost var given, log, wants := s.Handed(), s.world.log, AllJoined(requests);
    chains := [];
    assert requests[0..] == requests && given + Flat([]) == given;
    assert log.published + [] == log.published;
    for i := 0 to |requests|
      invariant s.Valid() && |chains| == i
      invariant AllFit(s.driver.arena, s.mem.buf.Length, NeedsAll(requests[i..], reply))
      invariant Descriptors(requests[i..]) <= |s.world.drv.free|
      invariant s.world.log == log.(published := log.published + chains)
      invariant s.Handed() == given + Flat(chains)
      invariant AllCarry(s.world.mem, chains, wants, reply)
    {
      assert requests[i..][0] == requests[i] && requests[i..][1..] == requests[i + 1..];
      RoomForRest(s.driver.arena, s.mem.buf.Length, requests[i..], reply);
      ghost var m := s.world.mem;
      ghost var c := Send(s, requests[i], reply);
      CarryOneMore(m, s.world.mem, chains, c, wants, reply, given);
      FlatAfter(given, chains, c);
      assert log.published + chains + [c] == log.published + (chains + [c]);
      chains := chains + [c];
    }
  }

  // ---------------------------------------------------------------- the device's part

  /** The device applies `f` to each request by itself. */
  function Applying(f: seq<byte> -> seq<byte>): D.Work {
    (requests: seq<seq<byte>>) => if requests == [] then [] else f(requests[|requests| - 1])
  }

  /** The answer, as far as it fits the reply buffer. */
  function Cut(answer: seq<byte>, reply: u32): seq<byte> {
    answer[..Min(|answer|, reply)]
  }

  /** The chain has been answered: the completion names it and the length of the reply, and the reply stands at
      the beginning of its writable buffer. */
  ghost predicate Replied(m: seq<byte>, c: Chain, done: (u16, u32), answer: seq<byte>, reply: u32) {
    && c.indices != [] && done == (c.indices[0], |Cut(answer, reply)|)
    && |WritableOf(c.buffers)| == 1
    && var b := WritableOf(c.buffers)[0];
       b.0 + reply <= |m| && m[b.0..b.0 + done.1] == Cut(answer, reply)
  }

  lemma LastRequest(m: seq<byte>, chains: seq<Chain>, k: nat, f: seq<byte> -> seq<byte>, request: seq<byte>, reply: u32)
    requires k < |chains| && Carries(m, chains[k], request, reply)
    ensures Applying(f)(Requests(m, chains[..k + 1])) == f(request)
  {
    hide Contents, Inside, ReadableOf, WritableOf;
    assert chains[..k + 1][..k] == chains[..k];
    AllInside(m, ReadableOf(chains[k].buffers));
  }

  lemma OneBuffer(m: seq<byte>, bs: D.Buffers)
    requires |bs| == 1 && InRegion(m, bs)
    ensures Separate(bs) && D.Length(bs) == bs[0].1 && Contents(m, bs) == m[bs[0].0..bs[0].0 + bs[0].1]
  {
    assert bs == [bs[0]] && bs[0] in bs && bs[1..] == [];
    hide Contents;
    ContentsOfOne(m, bs[0]);
  }

  lemma AnsweredIsReplied(m: seq<byte>, m': seq<byte>, chains: seq<Chain>, k: nat, f: seq<byte> -> seq<byte>,
                          request: seq<byte>, reply: u32, done: (u16, u32))
    requires k < |chains| && Carries(m, chains[k], request, reply)
    requires Answered(m, m', Applying(f), chains, k, done)
    ensures Replied(m', chains[k], done, f(request), reply)
  {
    hide Contents, ReadableOf, WritableOf, Ends, PlacedIn, Separate, Requests, Applying, D.Length;
    LastRequest(m, chains, k, f, request, reply);
    var bs := WritableOf(chains[k].buffers);
    OneBuffer(m, bs);
    OneBuffer(m', bs);
    var b, answer := bs[0], f(request);
    assert m'[b.0..b.0 + b.1][..done.1] == m'[b.0..b.0 + done.1];
  }

  /** The driver finds the writable buffer again by walking the chain it published. */
  lemma ReadsBack(l: Layout, w: World, k: nat)
    requires Good(l, w) && |w.log.collected| <= k < |w.log.published| && Accepted(w.log.published[k])
    ensures l.Valid() && RingsIn(w.mem, l) && w.log.published[k].indices != []
    ensures var c := w.log.published[k];
      D.Writable(WalkChain(TableOf(w.mem, l), c.indices[0]).descs) == WritableOf(c.buffers)
  {
    hide View, RingsInv, TableOf, WalkChain, ReadableOf, WritableOf, D.Readable, D.Writable, TotalLength;
    WalksBack(l, w, k);
    SplitOfBuffers(WalkChain(TableOf(w.mem, l), w.log.published[k].indices[0]).descs);
  }

  // ---------------------------------------------------------------- the whole exchange

  /** Nothing is under way. */
  ghost predicate Idle(log: Log) {
    |log.collected| == |log.completed| == |log.popped| == |log.published|
  }

  /** The reply to the `k`-th request can be read back. */
  ghost predicate ReplyAt(l: Layout, m: seq<byte>, done: (u16, u32), answer: seq<byte>, reply: u32)
    requires l.Valid()
  {
    var ws := D.Writable(WalkChain(TableOf(m, l), done.0).descs);
    |ws| == 1 && ws[0].0 + done.1 <= |m| && m[ws[0].0..ws[0].0 + done.1] == Cut(answer, reply)
  }

  /** After the pass, every completion leads to its reply. */
  lemma PassReplies(l: Layout, w: World, w': World, f: seq<byte> -> seq<byte>, chains: seq<Chain>,
                    wants: seq<seq<byte>>, reply: u32, k: nat)
    requires Good(l, w) && Good(l, w') && |w.log.popped| <= |w.log.published| && Waiting(w.log) == chains
    requires AllCarry(w.mem, chains, wants, reply) && k < |chains| && AllAnswered(l, w, w', Applying(f))
    requires w'.log.published == w.log.published && w'.log.collected == w.log.collected
    ensures l.Valid() && |w.log.completed| <= |w'.log.completed| == |w.log.completed| + |chains|
    ensures ReplyAt(l, w'.mem, w'.log.completed[|w.log.completed|..][k], f(wants[k]), reply)
  {
    hide View, Good, TableOf, WalkChain, ReadableOf, WritableOf, D.Writable, Answered, Elsewhere, Applying, Cut;
    GoodParts(l, w);
    GoodParts(l, w');
    var n := |w.log.completed| + k;
    assert w.log.published[n] == chains[k];
    assert Carries(w.mem, chains[k], wants[k], reply);
    AnsweredIsReplied(w.mem, w'.mem, chains, k, f, wants[k], reply, w'.log.completed[n]);
    ReadsBack(l, w', n);
    CutFits(f(wants[k]), reply);
  }

  lemma CutFits(answer: seq<byte>, reply: u32)
    ensures |Cut(answer, reply)| <= reply
  {
  }

  lemma DecisionsChangeNothing(l: Layout, eventIdx: bool, w: World, op: Op)
    requires Good(l, w) && (op == Kick || op == Notify)
    ensures var w' := Step(l, eventIdx, w, op);
      && w'.mem == w.mem
      && w'.log == w.log.(kickAt := w'.log.kickAt, notifyAt := w'.log.notifyAt)
  {
  }

  lemma PassLogs(l: Layout, eventIdx: bool, w: World, work: D.Work)
    requires Good(l, w)
    ensures var w' := Step(l, eventIdx, w, Process(work));
      && w'.log.published == w.log.published && w'.log.collected == w.log.collected
      && |w'.log.completed| == |w'.log.popped| == |w.log.published|
  {
    ProcessKeeps(l, w, work);
    hide Inv, WholePass;
  }

  lemma CollectLogs(l: Layout, eventIdx: bool, w: World)
    requires Good(l, w) && |w.log.completed| == |w.log.published|
    ensures Good(l, Step(l, eventIdx, w, CollectUsed))
    ensures var w' := Step(l, eventIdx, w, CollectUsed);
      && w'.mem == w.mem && w'.log == w.log.(collected := w.log.completed) && |w'.drv.free| == l.queueSize
  {
    hide Good, Collect, View;
    GoodParts(l, w);
    CollectStep(l, w);
    StepKeeps(l, eventIdx, w, CollectUsed);
    CaughtUpFree(l, Step(l, eventIdx, w, CollectUsed));
  }

  /** What a driver that was idle and has published these chains will find after a pass. */
  ghost predicate Promised(l: Layout, m: seq<byte>, gained: seq<(u16, u32)>, f: seq<byte> -> seq<byte>,
                           wants: seq<seq<byte>>, reply: u32)
    requires l.Valid()
  {
    && |gained| == |wants|
    && forall k | 0 <= k < |wants| :: ReplyAt(l, m, gained[k], f(wants[k]), reply)
  }

  lemma PassPromises(l: Layout, w: World, w': World, f: seq<byte> -> seq<byte>, chains: seq<Chain>,
                     wants: seq<seq<byte>>, reply: u32)
    requires Good(l, w) && Good(l, w') && |w.log.popped| <= |w.log.published| && Waiting(w.log) == chains
    requires AllCarry(w.mem, chains, wants, reply) && |chains| == |wants| && AllAnswered(l, w, w', Applying(f))
    requires w'.log.published == w.log.published && w'.log.collected == w.log.collected
    requires |w.log.collected| == |w.log.completed|
    ensures l.Valid() && |w.log.collected| <= |w'.log.completed|
    ensures Promised(l, w'.mem, w'.log.completed[|w.log.collected|..], f, wants, reply)
  {
    hide Good, ReplyAt, Answered, Elsewhere, Applying, AllCarry;
    GoodParts(l, w);
    var gained, c := w'.log.completed[|w.log.collected|..], |w.log.completed|;
    forall k | 0 <= k < |wants| ensures ReplyAt(l, w'.mem, gained[k], f(wants[k]), reply) {
      PassReplies(l, w, w', f, chains, wants, reply, k);
      assert gained[k] == w'.log.completed[c + k];
    }
  }

  lemma WaitingAfter(log: Log, chains: seq<Chain>)
    requires |log.popped| == |log.published|
    ensures Waiting(log.(published := log.published + chains)) == chains
  {
  }

  lemma SentIndependent(s: Session, given: D.Buffers, chains: seq<Chain>)
    requires s.Valid() && s.Handed() == given + Flat(chains)
    ensures Independent(s.layout, chains)
  {
    hide Good, Allocations, ArenaStart, Layout.Valid, Flat, Independent;
    s.Parts();
    assert given + Flat(chains) == given + Flat(chains) + [];
    ArenaIsIndependent(s.layout, s.mem.buf[..], s.mem.buf.Length, s.lens, chains, given, []);
  }

  lemma CarriedIsClean(l: Layout, w: World, work: D.Work, chains: seq<Chain>, wants: seq<seq<byte>>, reply: u32)
    requires Good(l, w) && |w.log.popped| <= |w.log.published| && Waiting(w.log) == chains
    requires AllCarry(w.mem, chains, wants, reply) && |chains| == |wants| && l.Valid() && RingsIn(w.mem, l)
    ensures WholePass(l, w, work).stats.rejected == []
  {
    hide Good, View, WholePass, Contents, ReadableOf, WritableOf, InRegion, Layout.Valid;
    forall c | c in chains ensures Accepted(c) && InRegion(w.mem, Reads(c)) && InRegion(w.mem, Writes(c)) {
      var k :| 0 <= k < |chains| && chains[k] == c;
      assert Carries(w.mem, chains[k], wants[k], reply);
    }
    PassReportsNothing(l, w, work);
  }

  /** Kick, pass, interrupt, collection: the driver ends up with a completion for each of the waiting chains. */
  method Turnaround(s: Session, f: seq<byte> -> seq<byte>, ghost chains: seq<Chain>,
                    ghost wants: seq<seq<byte>>, ghost reply: u32)
    returns (completions: seq<(u16, u32)>, errors: nat)
    requires s.Valid() && |s.world.log.collected| == |s.world.log.completed| == |s.world.log.popped|
    requires |s.world.log.popped| <= |s.world.log.published| && Waiting(s.world.log) == chains
    requires Independent(s.layout, chains) && |chains| == |wants| && AllCarry(s.world.mem, chains, wants, reply)
    modifies s, s.driver, s.device, s.mem.buf
    ensures s.Valid() && Idle(s.world.log) && |s.world.drv.free| == s.layout.queueSize && s.layout.Valid()
    ensures s.world.log.published == old(s.world.log.published)
    ensures Promised(s.layout, s.world.mem, completions, f, wants, reply) && errors == 0
  {
    hide Good, View, ArenaStart, Layout.Valid, Pointer, AllCarry, AllAnswered, Independent, Step, Promised, WholePass;
    DecisionsChangeNothing(s.layout, s.eventIdx, s.world, Kick);
    var kick := s.NeedsKick();
    ghost var w := s.world;
    PassLogs(s.layout, s.eventIdx, w, Applying(f));
    var stats := s.Process(Applying(f));
    CarriedIsClean(s.layout, w, Applying(f), chains, wants, reply);
    errors := |stats.value.rejected|;
    PassPromises(s.layout, w, s.world, f, chains, wants, reply);
    DecisionsChangeNothing(s.layout, s.eventIdx, s.world, Notify);
    var interrupt := s.NeedsNotification();
    ghost var before := |s.world.log.collected|;
    CollectLogs(s.layout, s.eventIdx, s.world);
    var r := s.CollectUsed();
    completions := r.value;
    assert completions == s.world.log.completed[before..];
  }

  /** On an idle queue with room for them: every request is answered with `f` of its own joined pieces, cut to
      the reply buffer; the driver reads exactly that out of the region; the device reports nothing; and all descriptors
      are back. */
  method Exchange(s: Session, requests: seq<seq<Piece>>, reply: u32, f: seq<byte> -> seq<byte>)
    returns (replies: seq<seq<byte>>, errors: nat)
    requires s.Valid() && Idle(s.world.log)
    requires AllFit(s.driver.arena, s.mem.buf.Length, NeedsAll(requests, reply))
    requires Descriptors(requests) <= |s.world.drv.free|
    requires forall i | 0 <= i < |requests| :: |Joined(requests[i])| + reply < 0x1_0000_0000
    modifies s, s.driver, s.device, s.mem.buf
    ensures s.Valid() && Idle(s.world.log) && |s.world.drv.free| == s.layout.queueSize
    ensures |s.world.log.published| == |old(s.world.log.published)| + |requests|
    ensures |replies| == |requests| && errors == 0
    ensures forall k | 0 <= k < |requests| :: replies[k] == Cut(f(Joined(requests[k])), reply)
  {
    hide Good, View, Allocations, ArenaStart, Layout.Valid, AllFit, Pointer, Joined, AllCarry, Independent,
      Promised, Flat, Cut;
    ghost var given, log0 := s.Handed(), s.world.log;
    ghost var chains := SendAll(s, requests, reply);
    SentIndependent(s, given, chains);
    WaitingAfter(log0, chains);
    var completions;
    completions, errors := Turnaround(s, f, chains, AllJoined(requests), reply);
    replies := ReadReplies(s, completions, f, AllJoined(requests), reply);
  }

  /** Reads every reply out of the buffer the chain's walk leads to. */
  method ReadReplies(s: Session, completions: seq<(u16, u32)>, ghost f: seq<byte> -> seq<byte>,
                     ghost wants: seq<seq<byte>>, ghost reply: u32)
    returns (replies: seq<seq<byte>>)
    requires s.Valid() && s.layout.Valid() && Promised(s.layout, s.world.mem, completions, f, wants, reply)
    ensures |replies| == |wants|
    ensures forall k | 0 <= k < |wants| :: replies[k] == Cut(f(wants[k]), reply)
  {
    hide Good, View, Layout.Valid, Cut, TableOf, WalkChain, D.Writable, D.Readable, ArenaStart, Pointer;
    replies := [];
    for k := 0 to |completions|
      invariant |replies| == k && s.Valid()
      invariant forall i | 0 <= i < k :: replies[i] == Cut(f(wants[i]), reply)
    {
      var (head, len) := completions[k];
      assert ReplyAt(s.layout, s.world.mem, completions[k], f(wants[k]), reply);
      var count, readable, writable, error := s.device.CollectChain(s.mem, head);
      var got := s.mem.ReadSlice(writable[0].0, len);
      replies := replies + [got.value];
    }
  }

  // ---------------------------------------------------------------- from nothing

  /** Room that is enough for these allocations, each rounded up to a multiple of 8. */
  function Space(lens: seq<u32>): nat {
    if lens == [] then 0 else lens[0] + 7 + Space(lens[1..])
  }

  lemma {:induction false} SpaceFits(arena: u64, arenaEnd: u64, lens: seq<u32>)
    requires arenaEnd <= LAST_END && arena + Space(lens) <= arenaEnd
    ensures AllFit(arena, arenaEnd, lens)
    decreases |lens|
  {
    if lens != [] {
      hide NextMultiple;
      RoundsUp(arena + lens[0]);
      SpaceFits(NextMultiple(arena + lens[0], 8), arenaEnd, lens[1..]);
    }
  }

  lemma FreshIsIdle(l: Layout, mem: seq<byte>)
    requires l.Valid()
    ensures Idle(NewWorld(l, mem).log) && |NewWorld(l, mem).drv.free| == l.queueSize
  {
  }

  /** The demonstration on a fresh queue, for any requests that fit the queue and the region. */
  method Demonstrate(layout: Layout, len: u64, eventIdx: bool, requests: seq<seq<Piece>>, reply: u32,
                     f: seq<byte> -> seq<byte>)
    returns (replies: seq<seq<byte>>, errors: nat)
    requires layout.Valid() && ArenaStart(layout) + Space(NeedsAll(requests, reply)) <= len <= LAST_END
    requires Descriptors(requests) <= layout.queueSize
    requires forall i | 0 <= i < |requests| :: |Joined(requests[i])| + reply < 0x1_0000_0000
    ensures |replies| == |requests| && errors == 0
    ensures forall k | 0 <= k < |requests| :: replies[k] == Cut(f(Joined(requests[k])), reply)
  {
    hide Good, NewWorld, Allocations, AllFit, NeedsAll, Joined, Cut;
    var s := new Session(layout, len, eventIdx);
    FreshIsIdle(layout, s.world.mem);
    SpaceFits(s.driver.arena, s.mem.buf.Length, NeedsAll(requests, reply));
    replies, errors := Exchange(s, requests, reply, f);
  }
}
