/** Chains over buffers that the arena handed out do not disturb each other. */
module Handout {
  import opened Words
  import opened VirtqLayout
  import opened DriverSpec
  import D = DeviceSpec
  import opened ScatterGather
  import opened Passes
  import opened Queue
  import opened Results
  import Arena

  function Pair(b: Buffer): (u64, u32) {
    (b.addr, b.len)
  }

  function Pairs(buffers: seq<Buffer>): (s: D.Buffers)
    ensures |s| == |buffers|
  {
    seq(|buffers|, i requires 0 <= i < |buffers| => Pair(buffers[i]))
  }

  /** All buffers of these chains, in order. */
  function Flat(chains: seq<Chain>): D.Buffers {
    if chains == [] then [] else Flat(chains[..|chains| - 1]) + Pairs(chains[|chains| - 1].buffers)
  }

  lemma Associates<T>(a: seq<T>, b: seq<T>, c: seq<T>)
    ensures a + b + c == a + (b + c)
  {
  }

  lemma FlatMore(chains: seq<Chain>, c: Chain)
    ensures Flat(chains + [c]) == Flat(chains) + Pairs(c.buffers)
  {
    assert (chains + [c])[..|chains|] == chains;
  }

  lemma {:induction false} HalvesAreParts(buffers: seq<Buffer>, b: (u64, u32))
    requires b in ReadableOf(buffers) || b in WritableOf(buffers)
    ensures b in Pairs(buffers)
  {
    assert Pairs(buffers)[0] == Pair(buffers[0]) && Pairs(buffers)[1..] == Pairs(buffers[1..]);
    if b != Pair(buffers[0]) {
      HalvesAreParts(buffers[1..], b);
    }
  }

  lemma {:induction false} WritableSeparate(buffers: seq<Buffer>)
    requires Separate(Pairs(buffers))
    ensures Separate(WritableOf(buffers))
  {
    if buffers != [] {
      var ps, ws := Pairs(buffers), WritableOf(buffers[1..]);
      assert ps[1..] == Pairs(buffers[1..]);
      WritableSeparate(buffers[1..]);
      forall b | b in ws ensures ApartBuffers(ps[0], b) {
        HalvesAreParts(buffers[1..], b);
        assert b in ps[1..];
      }
      hide ApartBuffers;
      assert Separate([ps[0]] + ws);
      assert [] + ws == ws;
    }
  }

  lemma {:induction false} InFlat(chains: seq<Chain>, k: nat, b: (u64, u32))
    requires k < |chains| && b in Pairs(chains[k].buffers)
    ensures b in Flat(chains)
  {
    if k < |chains| - 1 {
      InFlat(chains[..|chains| - 1], k, b);
    }
  }

  lemma {:induction false} FlatApart(chains: seq<Chain>, j: nat, k: nat)
    requires Separate(Flat(chains)) && j < k < |chains|
    ensures AllApart(Pairs(chains[j].buffers), Pairs(chains[k].buffers))
  {
    var front, last := Flat(chains[..|chains| - 1]), Pairs(chains[|chains| - 1].buffers);
    assert Flat(chains) == front + last;
    SeparateParts(front, last);
    if k == |chains| - 1 {
      forall b, c | b in Pairs(chains[j].buffers) && c in last ensures ApartBuffers(b, c) {
        InFlat(chains[..|chains| - 1], j, b);
      }
    } else {
      FlatApart(chains[..|chains| - 1], j, k);
    }
  }

  lemma SeparateParts(a: D.Buffers, b: D.Buffers)
    requires Separate(a + b)
    ensures Separate(a) && Separate(b) && AllApart(a, b)
  {
    hide ApartBuffers;
    forall i, j | 0 <= i < j < |a| ensures ApartBuffers(a[i], a[j]) {
      assert (a + b)[i] == a[i] && (a + b)[j] == a[j];
    }
    forall i, j | 0 <= i < j < |b| ensures ApartBuffers(b[i], b[j]) {
      assert (a + b)[|a| + i] == b[i] && (a + b)[|a| + j] == b[j];
    }
    forall x, y | x in a && y in b ensures ApartBuffers(x, y) {
      var i :| 0 <= i < |a| && a[i] == x;
      var j :| 0 <= j < |b| && b[j] == y;
      assert (a + b)[i] == x && (a + b)[|a| + j] == y;
    }
  }

  lemma {:induction false} FlatOneSeparate(chains: seq<Chain>, k: nat)
    requires Separate(Flat(chains)) && k < |chains|
    ensures Separate(Pairs(chains[k].buffers))
  {
    var front, last := Flat(chains[..|chains| - 1]), Pairs(chains[|chains| - 1].buffers);
    SeparateParts(front, last);
    if k < |chains| - 1 {
      FlatOneSeparate(chains[..|chains| - 1], k);
    }
  }

  /** Chains none of whose buffers share a byte, and which avoid the rings, do not write into each other. */
  lemma SeparateIsIndependent(l: Layout, chains: seq<Chain>)
    requires Separate(Flat(chains)) && AllAvoid(l, Flat(chains))
    ensures Independent(l, chains)
    ensures forall k | 0 <= k < |chains| :: Separate(Writes(chains[k]))
  {
    hide Separate, ApartBuffers, Pairs, D.Avoids, Flat, ReadableOf, WritableOf;
    forall k, b | 0 <= k < |chains| && b in Reads(chains[k]) ensures D.Avoids(l, b) {
      HalvesAreParts(chains[k].buffers, b);
      InFlat(chains, k, b);
    }
    forall j, k | 0 <= j < k < |chains|
      ensures AllApart(Writes(chains[j]), Reads(chains[k])) && AllApart(Writes(chains[j]), Writes(chains[k]))
    {
      FlatApart(chains, j, k);
      forall b | b in Writes(chains[j]) ensures b in Pairs(chains[j].buffers) {
        HalvesAreParts(chains[j].buffers, b);
      }
      forall c | c in Reads(chains[k]) || c in Writes(chains[k]) ensures c in Pairs(chains[k].buffers) {
        HalvesAreParts(chains[k].buffers, c);
      }
    }
    forall k | 0 <= k < |chains| ensures Separate(Writes(chains[k])) {
      FlatOneSeparate(chains, k);
      WritableSeparate(chains[k].buffers);
      NoneSeparate();
    }
  }

  lemma NoneSeparate()
    ensures Separate([])
  {
  }

  /** Chains over consecutive buffers from the arena, whatever was handed out before and after them: they do not
      write into each other, and their buffers lie in the region. */
  lemma ArenaIsIndependent(l: Layout, m: seq<byte>, arenaEnd: u64, lens: seq<u32>, chains: seq<Chain>,
                           before: D.Buffers, after: D.Buffers)
    requires l.Valid() && Arena.ArenaStart(l) < 0x1_0000_0000_0000_0000 && arenaEnd <= Arena.LAST_END
    requires arenaEnd <= |m|
    requires Arena.Allocations(Arena.ArenaStart(l), arenaEnd, lens) == before + Flat(chains) + after
    ensures Independent(l, chains)
    ensures forall k | 0 <= k < |chains| ::
        Separate(Writes(chains[k])) && InRegion(m, Writes(chains[k])) && InRegion(m, Reads(chains[k]))
  {
    hide Arena.Allocations, Flat, Pairs, Layout.Valid, ReadableOf, WritableOf, D.Avoids, Arena.ArenaStart;
    Arena.LowArenaRounds(Arena.ArenaStart(l), arenaEnd, lens);
    Arena.AllocationsSeparate(l, arenaEnd, lens);
    var flat := Flat(chains);
    assert forall i | 0 <= i < |flat| :: flat[i] == (before + flat + after)[|before| + i];
    assert Separate(flat);
    assert forall b | b in flat :: b in before + flat + after;
    hide Separate;
    SeparateIsIndependent(l, chains);
    forall k, b | 0 <= k < |chains| && (b in Writes(chains[k]) || b in Reads(chains[k])) ensures b.0 + b.1 <= |m| {
      HalvesAreParts(chains[k].buffers, b);
      InFlat(chains, k, b);
    }
  }
}
