/** The driver's bump allocator for buffer space (toy-virtq-raw/src/driver.rs:60-92). */
module Arena {
  import opened Words
  import opened Memory
  import opened VirtqLayout
  import opened DeviceSpec

  /** `next_multiple_of` on a `u64`; past the last multiple it comes out as 0. */
  function NextMultiple(v: u64, align: nat): u64
    requires align == 8 || align == 16
  {
    AlignUp(v, align) % 0x1_0000_0000_0000_0000
  }

  /** The last end of an allocation that rounds up to a multiple of 8 within 64 bits. */
  const LAST_END: u64 := 0xffff_ffff_ffff_fff8

  lemma RoundsUp(v: u64)
    ensures v <= NextMultiple(v, 8) <==> v <= LAST_END
    ensures v <= LAST_END ==> NextMultiple(v, 8) < v + 8
    ensures v > LAST_END ==> NextMultiple(v, 8) == 0
    ensures NextMultiple(v, 8) % 8 == 0
  {
  }

  /** An allocation of `len` bytes from the bump pointer: its address and the new pointer, or neither. */
  function Bump(arena: u64, arenaEnd: u64, len: u32): Option<(u64, u64)> {
    match CheckedAdd(arena, len)
    case None => None
    case Some(end) => if end > arenaEnd then None else Some((arena, NextMultiple(end, 8)))
  }

  /** What a sequence of allocation requests is given; requests that do not fit get nothing. */
  function Allocations(arena: u64, arenaEnd: u64, lens: seq<u32>): Buffers
    decreases |lens|
  {
    if lens == [] then []
    else match Bump(arena, arenaEnd, lens[0])
      case None => Allocations(arena, arenaEnd, lens[1..])
      case Some((addr, next)) => [(addr, lens[0])] + Allocations(next, arenaEnd, lens[1..])
  }

  /** Exactly the requests that end inside the arena are served, at the pointer. */
  lemma BumpExactly(arena: u64, arenaEnd: u64, len: u32)
    ensures Bump(arena, arenaEnd, len).Some? <==> arena + len <= arenaEnd
    ensures Bump(arena, arenaEnd, len).Some? ==>
      var (addr, next) := Bump(arena, arenaEnd, len).value; addr == arena && Follows(next, arena + len)
  {
    hide NextMultiple;
    if arena + len <= arenaEnd {
      RoundsUp(arena + len);
    }
  }

  /** The least multiple of 8 that is at least `end`; 0 where that would leave 64 bits. */
  predicate Follows(next: nat, end: nat) {
    if end <= 0xffff_ffff_ffff_fff8 then next % 8 == 0 && end <= next < end + 8 else next == 0
  }

  /** Where the bump pointer stands after these requests. */
  function Pointer(arena: u64, arenaEnd: u64, lens: seq<u32>): u64
    decreases |lens|
  {
    if lens == [] then arena
    else match Bump(arena, arenaEnd, lens[0])
      case None => Pointer(arena, arenaEnd, lens[1..])
      case Some((_, next)) => Pointer(next, arenaEnd, lens[1..])
  }

  /** One more request is served from there. */
  lemma {:induction false} OneMoreRequest(arena: u64, arenaEnd: u64, lens: seq<u32>, len: u32)
    ensures var given, at := Allocations(arena, arenaEnd, lens), Pointer(arena, arenaEnd, lens);
      match Bump(at, arenaEnd, len)
      case None =>
        Allocations(arena, arenaEnd, lens + [len]) == given && Pointer(arena, arenaEnd, lens + [len]) == at
      case Some((addr, next)) =>
        && Allocations(arena, arenaEnd, lens + [len]) == given + [(addr, len)]
        && Pointer(arena, arenaEnd, lens + [len]) == next
    decreases |lens|
  {
    hide NextMultiple;
    if lens == [] {
      assert (lens + [len])[1..] == [];
    } else {
      assert (lens + [len])[1..] == lens[1..] + [len];
      match Bump(arena, arenaEnd, lens[0])
      case None => OneMoreRequest(arena, arenaEnd, lens[1..], len);
      case Some((_, next)) => OneMoreRequest(next, arenaEnd, lens[1..], len);
    }
  }

  lemma {:induction false} PointerAscends(arena: u64, arenaEnd: u64, lens: seq<u32>)
    requires arenaEnd <= LAST_END
    ensures arena <= Pointer(arena, arenaEnd, lens)
    decreases |lens|
  {
    hide NextMultiple;
    if lens != [] {
      match Bump(arena, arenaEnd, lens[0])
      case None => PointerAscends(arena, arenaEnd, lens[1..]);
      case Some((_, next)) =>
        RoundsUp(arena + lens[0]);
        PointerAscends(next, arenaEnd, lens[1..]);
    }
  }

  // ---------------------------------------------------------------- allocations are separate

  /** The buffers follow each other from `from` on. */
  ghost predicate Ascending(a: Buffers, from: nat) {
    && (forall i | 0 <= i < |a| :: from <= a[i].0)
    && (forall i, j | 0 <= i < j < |a| :: a[i].0 + a[i].1 <= a[j].0)
  }

  /** No allocation but the last ends where rounding its end up would leave 64 bits. */
  ghost predicate RoomToRound(a: Buffers) {
    forall i | 0 <= i < |a| - 1 :: a[i].0 + a[i].1 <= LAST_END
  }

  lemma {:induction false} AllocationsEnd(arena: u64, arenaEnd: u64, lens: seq<u32>)
    ensures forall b | b in Allocations(arena, arenaEnd, lens) :: b.0 + b.1 <= arenaEnd
    ensures var a := Allocations(arena, arenaEnd, lens); a != [] ==> a[0].0 == arena
    decreases |lens|
  {
    hide NextMultiple;
    if lens != [] {
      match Bump(arena, arenaEnd, lens[0])
      case None => AllocationsEnd(arena, arenaEnd, lens[1..]);
      case Some((_, next)) => AllocationsEnd(next, arenaEnd, lens[1..]);
    }
  }

  /** Every buffer handed out after the first begins at the first multiple of 8 from the end of the one before. */
  lemma {:induction false} AllocationsFollow(arena: u64, arenaEnd: u64, lens: seq<u32>)
    ensures var a := Allocations(arena, arenaEnd, lens); forall i | 0 <= i < |a| - 1 :: Snug(a, i)
    decreases |lens|
  {
    hide NextMultiple;
    if lens != [] {
      BumpExactly(arena, arenaEnd, lens[0]);
      match Bump(arena, arenaEnd, lens[0])
      case None =>
        AllocationsFollow(arena, arenaEnd, lens[1..]);
        assert Allocations(arena, arenaEnd, lens) == Allocations(arena, arenaEnd, lens[1..]);
      case Some((addr, next)) =>
        AllocationsFollow(next, arenaEnd, lens[1..]);
        AllocationsEnd(next, arenaEnd, lens[1..]);
        var rest := Allocations(next, arenaEnd, lens[1..]);
        var a := [(addr, lens[0])] + rest;
        forall i | 0 <= i < |a| - 1 ensures Snug(a, i) {
          assert i > 0 ==> Snug(rest, i - 1);
        }
    }
  }

  ghost predicate Snug(a: Buffers, i: nat)
    requires i + 1 < |a|
  {
    Follows(a[i + 1].0, a[i].0 + a[i].1)
  }

  /** The buffers handed out follow each other if and only if the pointer never had to be rounded up past the
      end of the address space: then it would start again at 0. */
  lemma {:induction false} AscendExactly(arena: u64, arenaEnd: u64, lens: seq<u32>)
    ensures var a := Allocations(arena, arenaEnd, lens); Ascending(a, arena) <==> RoomToRound(a)
    decreases |lens|
  {
    if lens != [] {
      hide NextMultiple, Ascending, RoomToRound;
      match Bump(arena, arenaEnd, lens[0])
      case None => AscendExactly(arena, arenaEnd, lens[1..]);
      case Some((_, next)) =>
        AscendExactly(next, arenaEnd, lens[1..]);
        AllocationsEnd(next, arenaEnd, lens[1..]);
        RoundsUp(arena + lens[0]);
        FirstThenRest((arena, lens[0]), next, Allocations(next, arenaEnd, lens[1..]));
    }
  }

  lemma FirstThenRest(b: (u64, u32), next: u64, rest: Buffers)
    requires rest != [] ==> rest[0].0 == next
    requires if b.0 + b.1 <= LAST_END then b.0 + b.1 <= next else next == 0
    requires Ascending(rest, next) <==> RoomToRound(rest)
    ensures Ascending([b] + rest, b.0) <==> RoomToRound([b] + rest)
  {
    var a := [b] + rest;
    if RoomToRound(a) {
      forall i | 0 <= i < |rest| - 1 ensures rest[i].0 + rest[i].1 <= LAST_END {
        assert a[i + 1] == rest[i];
      }
      assert rest != [] ==> a[0].0 + a[0].1 <= LAST_END;
      assert Ascending(rest, next);
    }
    if Ascending(a, b.0) && rest != [] {
      assert a[0].0 + a[0].1 <= a[1].0 == next;
      forall i | 0 <= i < |rest| ensures next <= rest[i].0 {
        assert i > 0 ==> a[1].0 + a[1].1 <= a[i + 1].0 == rest[i].0;
      }
      forall i, j | 0 <= i < j < |rest| ensures rest[i].0 + rest[i].1 <= rest[j].0 {
        assert a[i + 1].0 + a[i + 1].1 <= a[j + 1].0;
      }
      assert RoomToRound(rest);
      forall i | 0 <= i < |a| - 1 ensures a[i].0 + a[i].1 <= LAST_END {
        assert i > 0 ==> a[i] == rest[i - 1];
      }
    }
  }

  /** Where the arena of a queue begins. */
  function ArenaStart(l: Layout): nat {
    AlignUp(l.End(), 16)
  }

  lemma StartsThere(l: Layout, arenaEnd: u64)
    requires l.End() < 0x1_0000_0000_0000_0000 && ArenaStart(l) < 0x1_0000_0000_0000_0000
    ensures NextMultiple(l.End(), 16) == ArenaStart(l)
    ensures Pointer(ArenaStart(l), arenaEnd, []) == ArenaStart(l)
  {
    hide AlignUp;
  }

  /** Over any sequence of requests that leaves room to round, the buffers handed out are pairwise disjoint, end
      inside the arena and share no byte with the rings. */
  lemma AllocationsSeparate(l: Layout, arenaEnd: u64, lens: seq<u32>)
    requires l.Valid() && ArenaStart(l) < 0x1_0000_0000_0000_0000
    requires RoomToRound(Allocations(ArenaStart(l), arenaEnd, lens))
    ensures var a := Allocations(ArenaStart(l), arenaEnd, lens);
      && (forall i, j | 0 <= i < j < |a| :: Apart(a[i].0, a[i].1, a[j].0, a[j].1))
      && (forall b | b in a :: b.0 + b.1 <= arenaEnd && Avoids(l, b))
  {
    hide Allocations, Layout.Valid;
    AscendExactly(ArenaStart(l), arenaEnd, lens);
    AllocationsEnd(ArenaStart(l), arenaEnd, lens);
  }

  /** An arena that ends at least 8 bytes below the end of the address space always leaves that room. */
  lemma LowArenaRounds(arena: u64, arenaEnd: u64, lens: seq<u32>)
    requires arenaEnd <= LAST_END
    ensures RoomToRound(Allocations(arena, arenaEnd, lens))
  {
    hide Allocations;
    AllocationsEnd(arena, arenaEnd, lens);
    var a := Allocations(arena, arenaEnd, lens);
    assert forall i | 0 <= i < |a| :: a[i] in a;
  }

  // ---------------------------------------------------------------- data longer than a length can say

  /** `alloc` cuts the length of its data to 32 bits before it reserves room. What it stores stays below the
      next allocation if and only if the data is shorter than 2^32 bytes and the pointer leaves room to round. */
  lemma AllocStaysWithin(arena: u64, arenaEnd: u64, n: nat)
    requires Bump(arena, arenaEnd, n % 0x1_0000_0000).Some?
    ensures var (addr, next) := Bump(arena, arenaEnd, n % 0x1_0000_0000).value;
      addr + n <= next <==> n < 0x1_0000_0000 && addr + n <= LAST_END
  {
    hide NextMultiple;
    RoundsUp(arena + n % 0x1_0000_0000);
  }

  /** Every longer piece of data that the region accepts is stored over the next allocation: the arena still
      has room for one byte, and hands it out from the middle of that data. */
  lemma LongDataOverlaps(m: seq<byte>, arena: u64, data: seq<byte>)
    requires |data| >= 0x1_0000_0000 && arena + |data| <= |m| <= LAST_END
    ensures Patch(m, arena, data)[arena..arena + |data|] == data
    ensures var first := Bump(arena, |m|, |data| % 0x1_0000_0000);
      first.Some? && first.value.0 == arena
      && var second := Bump(first.value.1, |m|, 1);
         second.Some? && arena <= second.value.0 < arena + |data|
  {
    hide NextMultiple;
    PatchReads(m, arena, data, 0, 0);
    RoundsUp(arena + |data| % 0x1_0000_0000);
  }

  /** Such data exists: 2^32 bytes at the start of the arena of any queue below them, in a region of three times
      that size. */
  lemma LongDataFits(l: Layout, m: seq<byte>, data: seq<byte>)
    requires l.Valid() && l.End() < 0x1_0000_0000 && |m| == 0x3_0000_0000 && |data| == 0x1_0000_0000
    ensures ArenaStart(l) + |data| <= |m| <= LAST_END
  {
  }
}
