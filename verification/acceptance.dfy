/** Which chains the walk accepts, for a table of arbitrary contents. */
module Acceptance {
  import opened Words
  import opened Rings
  import opened ChainWalk

  // ---------------------------------------------------------------- chains without any bound

  /** `path` is what following `next` from `head` visits; nothing limits its length. */
  ghost predicate Linked(t: Table, head: u16, path: seq<u16>) {
    path != [] && path[0] == head && InTable(t, path) && Links(t, path)
  }

  ghost predicate InTable(t: Table, path: seq<u16>) {
    forall i | 0 <= i < |path| :: path[i] < |t| && t[path[i]].Ok?
  }

  ghost predicate Links(t: Table, path: seq<u16>)
    requires InTable(t, path)
  {
    forall i | 0 <= i < |path| - 1 :: At(t, path[i]).HasNext() && At(t, path[i]).next == path[i + 1]
  }

  ghost function At(t: Table, i: u16): Descriptor
    requires i < |t| && t[i].Ok?
  {
    t[i].value
  }

  ghost function DescsOf(t: Table, path: seq<u16>): (ds: seq<Descriptor>)
    requires InTable(t, path)
    ensures |ds| == |path|
  {
    seq(|path|, i requires 0 <= i < |path| => At(t, path[i]))
  }

  /** The whole chain: it ends at a descriptor without `next`. */
  ghost predicate Terminates(t: Table, head: u16, path: seq<u16>) {
    Linked(t, head, path) && !At(t, path[|path| - 1]).HasNext()
  }

  function Bytes(ds: seq<Descriptor>): nat {
    if ds == [] then 0 else ds[0].len + Bytes(ds[1..])
  }

  /** No indirect descriptor, and every device-readable one precedes every device-writable one. */
  ghost predicate Ordered(ds: seq<Descriptor>) {
    && (forall i | 0 <= i < |ds| :: !ds[i].IsIndirect())
    && (forall i, j | 0 <= i < j < |ds| :: ds[i].IsWriteOnly() ==> ds[j].IsWriteOnly())
  }

  /** A chain the specification allows. */
  ghost predicate Lawful(ds: seq<Descriptor>) {
    Ordered(ds) && Bytes(ds) < 0x1_0000_0000
  }

  // ---------------------------------------------------------------- pigeonhole

  ghost predicate Distinct(s: seq<u16>) {
    forall i, j | 0 <= i < j < |s| :: s[i] != s[j]
  }

  lemma {:induction false} UpTo(n: nat) returns (all: set<u16>)
    requires n <= 0x1_0000
    ensures |all| == n && forall x: u16 :: x in all <==> x < n
  {
    if n == 0 {
      all := {};
    } else {
      all := UpTo(n - 1);
      all := all + {n - 1};
    }
  }

  lemma {:induction false} SetOf(s: seq<u16>) returns (all: set<u16>)
    requires Distinct(s)
    ensures |all| == |s| && forall x :: x in all <==> x in s
  {
    if s == [] {
      all := {};
    } else {
      var k := |s| - 1;
      all := SetOf(s[..k]);
      all := all + {s[k]};
      assert s == s[..k] + [s[k]];
    }
  }

  lemma SubsetSize(a: set<u16>, b: set<u16>)
    requires a <= b
    ensures |a| <= |b|
    ensures |a| == |b| ==> a == b
  {
    assert b == a + (b - a);
  }

  /** Distinct numbers below `n` are at most `n` many, and when they are `n` many none is missing. */
  lemma Pigeonhole(s: seq<u16>, n: nat)
    requires Distinct(s) && n <= 0x1_0000 && forall x | x in s :: x < n
    ensures |s| <= n
    ensures |s| == n ==> forall x: u16 | x < n :: x in s
  {
    var a := SetOf(s);
    var b := UpTo(n);
    SubsetSize(a, b);
  }

  /** A chain that ends never visits a descriptor twice: the walk from the second visit would go on exactly
      as from the first, so it could not end sooner. */
  lemma {:induction false} NoRevisit(t: Table, head: u16, path: seq<u16>, i: nat, j: nat)
    requires Terminates(t, head, path) && i < j < |path|
    ensures path[i] != path[j]
    decreases |path| - j
  {
    if path[i] == path[j] && j + 1 < |path| {
      assert At(t, path[i]).next == path[i + 1] && At(t, path[j]).next == path[j + 1];
      NoRevisit(t, head, path, i + 1, j + 1);
    }
  }

  lemma ChainFitsTable(t: Table, head: u16, path: seq<u16>)
    requires Terminates(t, head, path)
    ensures Distinct(path) && |path| <= |t|
  {
    forall i, j | 0 <= i < j < |path| ensures path[i] != path[j] {
      NoRevisit(t, head, path, i, j);
    }
    Pigeonhole(path, |t|);
  }

  // ---------------------------------------------------------------- following a trail

  /** Lawful descriptors, none at all to begin with, lead from `head` along `path` to index `i`. */
  ghost predicate LeadsTo(t: Table, head: u16, path: seq<u16>, i: u16) {
    if path == [] then i == head
    else
      var k := |path| - 1;
      Linked(t, head, path) && Lawful(DescsOf(t, path)) && At(t, path[k]).HasNext() && At(t, path[k]).next == i
  }

  ghost predicate AnyWritable(ds: seq<Descriptor>) {
    exists k :: 0 <= k < |ds| && ds[k].IsWriteOnly()
  }

  /** Why a walk that has come along `path` to index `i` goes no further, by the error it reports. */
  ghost predicate Stops(t: Table, path: seq<u16>, i: u16, e: ChainError)
    requires InTable(t, path)
  {
    var ds := DescsOf(t, path);
    match e
    case TooLong(limit) => |path| == |t| == limit
    case IndexOutOfRange(index, size) => |path| < |t| && index == i && size == |t| && i >= |t|
    case Mem(error) => |path| < |t| && i < |t| && t[i] == Err(error)
    case Indirect => |path| < |t| && i < |t| && t[i].Ok? && At(t, i).IsIndirect()
    case TooManyBytes =>
      && |path| < |t| && i < |t| && t[i].Ok? && !At(t, i).IsIndirect()
      && Bytes(ds) + At(t, i).len >= 0x1_0000_0000
    case ReadableAfterWritable =>
      && |path| < |t| && i < |t| && t[i].Ok? && !At(t, i).IsIndirect()
      && Bytes(ds) + At(t, i).len < 0x1_0000_0000 && !At(t, i).IsWriteOnly() && AnyWritable(ds)
  }

  /** None of these reasons applies. */
  ghost predicate GoesOn(t: Table, path: seq<u16>, i: u16)
    requires InTable(t, path)
  {
    && |path| < |t| && i < |t| && t[i].Ok? && !At(t, i).IsIndirect()
    && Bytes(DescsOf(t, path)) + At(t, i).len < 0x1_0000_0000
    && (AnyWritable(DescsOf(t, path)) ==> At(t, i).IsWriteOnly())
  }

  lemma TrailInTable(t: Table, head: u16, path: seq<u16>, i: u16)
    requires LeadsTo(t, head, path, i)
    ensures InTable(t, path) && Lawful(DescsOf(t, path))
  {
    hide Descriptor.IsWriteOnly, Descriptor.HasNext, Descriptor.IsIndirect;
  }

  /** The iterator once it has yielded the descriptors of `path`. */
  ghost function CursorAt(t: Table, path: seq<u16>, i: u16): Cursor
    requires InTable(t, path) && Lawful(DescsOf(t, path)) && |path| <= |t|
  {
    Cursor(i, |t| - |path|, Bytes(DescsOf(t, path)), AnyWritable(DescsOf(t, path)), false)
  }

  lemma {:induction false} BytesOfMore(ds: seq<Descriptor>, d: Descriptor)
    ensures Bytes(ds + [d]) == Bytes(ds) + d.len
  {
    if ds == [] {
      assert Bytes([d]) == d.len + Bytes([d][1..]) && [d][1..] == [] && ds + [d] == [d];
    } else {
      assert (ds + [d])[1..] == ds[1..] + [d];
      BytesOfMore(ds[1..], d);
    }
  }

  lemma OrderedMore(ds: seq<Descriptor>, d: Descriptor)
    requires Ordered(ds)
    ensures Ordered(ds + [d]) <==> !d.IsIndirect() && (AnyWritable(ds) ==> d.IsWriteOnly())
    ensures AnyWritable(ds + [d]) <==> AnyWritable(ds) || d.IsWriteOnly()
  {
    hide Descriptor.IsWriteOnly, Descriptor.IsIndirect;
    var more := ds + [d];
    assert more[|ds|] == d && forall k | 0 <= k < |ds| :: more[k] == ds[k];
  }

  lemma LinkedMore(t: Table, head: u16, path: seq<u16>, i: u16)
    requires LeadsTo(t, head, path, i) && i < |t| && t[i].Ok?
    ensures Linked(t, head, path + [i]) && DescsOf(t, path + [i]) == DescsOf(t, path) + [At(t, i)]
  {
    hide Descriptor.IsWriteOnly, Descriptor.HasNext, Descriptor.IsIndirect, Lawful;
    var longer := path + [i];
    assert forall k | 0 <= k < |path| :: longer[k] == path[k];
    if path != [] {
      assert Links(t, path);
    }
  }

  lemma TrailGoesOn(t: Table, head: u16, path: seq<u16>, i: u16)
    requires LeadsTo(t, head, path, i) && GoesOn(t, path, i)
    ensures Linked(t, head, path + [i]) && Lawful(DescsOf(t, path + [i]))
    ensures DescsOf(t, path + [i]) == DescsOf(t, path) + [At(t, i)]
    ensures At(t, i).HasNext() ==> LeadsTo(t, head, path + [i], At(t, i).next)
    ensures var (c, item) := Advance(t, CursorAt(t, path, i));
      && item == Some(Ok(At(t, i)))
      && if At(t, i).HasNext() then c == CursorAt(t, path + [i], At(t, i).next) else c.done
  {
    hide Descriptor.IsWriteOnly, Descriptor.HasNext, Descriptor.IsIndirect, Links, AnyWritable, Ordered, Bytes;
    TrailInTable(t, head, path, i);
    LinkedMore(t, head, path, i);
    BytesOfMore(DescsOf(t, path), At(t, i));
    OrderedMore(DescsOf(t, path), At(t, i));
  }

  /** Where the trail does not go on, the walk reports just the reason that applies. */
  lemma TrailStops(t: Table, path: seq<u16>, i: u16)
    requires InTable(t, path) && Lawful(DescsOf(t, path)) && |path| <= |t|
    ensures !GoesOn(t, path, i) ==> exists e :: Stops(t, path, i, e)
    ensures forall e | Stops(t, path, i, e) ::
        !GoesOn(t, path, i) && Walk(t, CursorAt(t, path, i)) == Walked([], Some(e))
  {
    hide Descriptor.IsWriteOnly, Descriptor.HasNext, Descriptor.IsIndirect, AnyWritable, Ordered, Bytes;
    var (_, item) := Advance(t, CursorAt(t, path, i));
    if !GoesOn(t, path, i) {
      assert item.Some? && item.value.Err? && Stops(t, path, i, item.value.error);
    }
  }

  /** Along a lawful trail the walk yields every descriptor and carries on from there. */
  lemma {:induction false} WalkFollows(t: Table, head: u16, path: seq<u16>, i: u16)
    requires LeadsTo(t, head, path, i) && |path| <= |t|
    ensures InTable(t, path) && Lawful(DescsOf(t, path))
    ensures var rest := Walk(t, CursorAt(t, path, i));
      WalkChain(t, head) == Walked(DescsOf(t, path) + rest.descs, rest.error)
    decreases |path|
  {
    hide Walk, Advance, Descriptor.IsWriteOnly, Descriptor.HasNext, Descriptor.IsIndirect, GoesOn, Lawful, Linked;
    TrailInTable(t, head, path, i);
    if path == [] {
      assert DescsOf(t, path) == [];
      NothingYet();
      assert Start(t, head) == CursorAt(t, path, i);
      assert [] + Walk(t, Start(t, head)).descs == Walk(t, Start(t, head)).descs;
    } else {
      var front, x := path[..|path| - 1], path[|path| - 1];
      assert path == front + [x];
      TrailParts(t, head, path, i);
      WalkFollows(t, head, front, x);
      TrailGoesOn(t, head, front, x);
      AdvanceProgress(t, CursorAt(t, front, x));
      Regroup(DescsOf(t, front), At(t, x), Walk(t, CursorAt(t, path, i)).descs);
    }
  }

  lemma TrailParts(t: Table, head: u16, path: seq<u16>, i: u16)
    requires LeadsTo(t, head, path, i) && 0 < |path| <= |t|
    ensures var front, x := path[..|path| - 1], path[|path| - 1];
      && LeadsTo(t, head, front, x) && InTable(t, front) && GoesOn(t, front, x)
      && DescsOf(t, path) == DescsOf(t, front) + [At(t, x)]
      && At(t, x).HasNext() && At(t, x).next == i
  {
    hide Descriptor.IsWriteOnly, Descriptor.HasNext, Descriptor.IsIndirect, Bytes, Links, GoesOn, AnyWritable, Ordered;
    var k, ds := |path| - 1, DescsOf(t, path);
    assert ds == ds[..k] + [ds[k]] && ds[..k + 1] == ds;
    BytesOfMore(ds[..k], ds[k]);
    TrailBefore(t, head, path, k);
  }

  lemma NothingYet()
    ensures Lawful([]) && Bytes([]) == 0 && !AnyWritable([])
  {
  }

  lemma Regroup(a: seq<Descriptor>, d: Descriptor, b: seq<Descriptor>)
    ensures a + ([d] + b) == a + [d] + b
  {
  }

  /** Every part of a lawful trail leads to the descriptor after it, where the trail goes on. */
  lemma TrailBefore(t: Table, head: u16, path: seq<u16>, j: nat)
    requires Linked(t, head, path) && Ordered(DescsOf(t, path)) && j < |path|
    requires Bytes(DescsOf(t, path)[..j]) < 0x1_0000_0000
    ensures LeadsTo(t, head, path[..j], path[j]) && DescsOf(t, path[..j]) == DescsOf(t, path)[..j]
    ensures Bytes(DescsOf(t, path)[..j + 1]) < 0x1_0000_0000 && j < |t| ==> GoesOn(t, path[..j], path[j])
    ensures !At(t, path[j]).IsIndirect()
    ensures Bytes(DescsOf(t, path)[..j + 1]) == Bytes(DescsOf(t, path)[..j]) + At(t, path[j]).len
  {
    hide Descriptor.IsWriteOnly, Descriptor.HasNext, Descriptor.IsIndirect, Bytes;
    var ds, part := DescsOf(t, path), path[..j];
    assert DescsOf(t, part) == ds[..j];
    assert ds[j] == At(t, path[j]) && ds[..j + 1] == ds[..j] + [ds[j]];
    BytesOfMore(ds[..j], ds[j]);
    assert Ordered(ds[..j]);
    assert AnyWritable(ds[..j]) ==> ds[j].IsWriteOnly();
    if j > 0 {
      assert At(t, path[j - 1]).HasNext() && At(t, path[j - 1]).next == path[j];
    }
  }

  /** Where the walk from a point of the trail ends. */
  lemma {:induction false} WalkEnds(t: Table, head: u16, path: seq<u16>, i: u16) returns (path': seq<u16>, i': u16)
    requires LeadsTo(t, head, path, i) && |path| <= |t|
    ensures LeadsTo(t, head, path', i') && |path'| <= |t| && InTable(t, path')
    ensures match WalkChain(t, head).error
      case Some(e) => Stops(t, path', i', e)
      case None => GoesOn(t, path', i') && !At(t, i').HasNext()
    decreases |t| - |path|
  {
    hide Walk, Advance, Stops, Descriptor.IsWriteOnly, Descriptor.HasNext, Descriptor.IsIndirect, Lawful, Linked;
    TrailInTable(t, head, path, i);
    WalkFollows(t, head, path, i);
    TrailStops(t, path, i);
    path', i' := path, i;
    if GoesOn(t, path, i) {
      TrailGoesOn(t, head, path, i);
      if At(t, i).HasNext() {
        path', i' := WalkEnds(t, head, path + [i], At(t, i).next);
      } else {
        AdvanceProgress(t, CursorAt(t, path, i));
        AdvanceProgress(t, Advance(t, CursorAt(t, path, i)).0);
        Exhausted(t, Advance(t, CursorAt(t, path, i)).0);
      }
    }
  }

  lemma Exhausted(t: Table, c: Cursor)
    requires c.done
    ensures Walk(t, c) == Walked([], None)
  {
  }

  /** What the walk refuses, for a table of any contents. It reports an error if and only if a lawful trail of at
      most as many descriptors as the table has leads from the head to where that error is due: `TooLong` where the
      trail is as long as the table; otherwise an index outside the table, an entry that cannot be read, an indirect
      descriptor, a total of 2^32 bytes, or a readable descriptor behind a writable one, the first of these that
      applies. It has then yielded just that trail. */
  lemma RefusesExactly(t: Table, head: u16, e: ChainError)
    ensures WalkChain(t, head).error == Some(e) <==> exists path, i :: Refused(t, head, path, i, e)
    ensures forall path, i | Refused(t, head, path, i, e) :: WalkChain(t, head) == Walked(DescsOf(t, path), Some(e))
  {
    assert LeadsTo(t, head, [], head);
    hide Walk, Stops, LeadsTo, Lawful;
    if WalkChain(t, head).error == Some(e) {
      var path, i := WalkEnds(t, head, [], head);
      assert Refused(t, head, path, i, e);
    }
    forall path, i | Refused(t, head, path, i, e)
      ensures WalkChain(t, head) == Walked(DescsOf(t, path), Some(e))
    {
      WalkFollows(t, head, path, i);
      TrailStops(t, path, i);
      assert DescsOf(t, path) + [] == DescsOf(t, path);
    }
  }

  ghost predicate Refused(t: Table, head: u16, path: seq<u16>, i: u16, e: ChainError) {
    LeadsTo(t, head, path, i) && |path| <= |t| && InTable(t, path) && Stops(t, path, i, e)
  }

  /** The walk finishes without an error on exactly the chains that following `next` without any limit
      would finish inside the table, and that the specification allows; it then yields all of the chain.
      In particular the limit of `queue_size` descriptors rejects no chain that ends. */
  lemma AcceptsExactly(t: Table, head: u16)
    ensures WalkChain(t, head).error == None
        <==> exists path :: Terminates(t, head, path) && Lawful(DescsOf(t, path))
    ensures forall path | Terminates(t, head, path) && Lawful(DescsOf(t, path)) ::
        WalkChain(t, head) == Walked(DescsOf(t, path), None)
  {
    assert LeadsTo(t, head, [], head);
    hide Walk, Stops, LeadsTo, Links, Ordered, Bytes, AnyWritable, Descriptor.HasNext, Descriptor.IsIndirect;
    if WalkChain(t, head).error == None {
      var path, i := WalkEnds(t, head, [], head);
      TrailGoesOn(t, head, path, i);
      assert Terminates(t, head, path + [i]) && Lawful(DescsOf(t, path + [i]));
    }
    forall path | Terminates(t, head, path) && Lawful(DescsOf(t, path))
      ensures WalkChain(t, head) == Walked(DescsOf(t, path), None)
    {
      WalkFinishes(t, head, path);
    }
  }

  lemma WalkFinishes(t: Table, head: u16, path: seq<u16>)
    requires Terminates(t, head, path) && Lawful(DescsOf(t, path))
    ensures WalkChain(t, head) == Walked(DescsOf(t, path), None)
  {
    hide Walk, Advance, Stops, LeadsTo, Links, Ordered, Bytes, GoesOn, Descriptor.HasNext, Descriptor.IsIndirect;
    var k, ds := |path| - 1, DescsOf(t, path);
    var front, x := path[..k], path[k];
    assert path == front + [x] && ds[..k + 1] == ds;
    ChainFitsTable(t, head, path);
    BytesOfMore(ds[..k], ds[k]);
    assert ds == ds[..k] + [ds[k]];
    TrailBefore(t, head, path, k);
    WalkFollows(t, head, front, x);
    TrailGoesOn(t, head, front, x);
    AdvanceProgress(t, CursorAt(t, front, x));
    Exhausted(t, Advance(t, CursorAt(t, front, x)).0);
    assert [At(t, x)] + [] == [At(t, x)];
  }

  /** The number of bytes the walk lets through stays below 2^32 whatever the table holds. */
  lemma {:induction false} WalkBounded(t: Table, c: Cursor)
    ensures c.yieldedBytes + Bytes(Walk(t, c).descs) < 0x1_0000_0000
    decreases Steps(c)
  {
    var (c', item) := Advance(t, c);
    if item.Some? && item.value.Ok? {
      WalkBounded(t, c');
      assert Walk(t, c).descs[1..] == Walk(t, c').descs;
    }
  }

  /** A trail that visits a descriptor twice goes round: what it goes on to is on the trail as well. */
  lemma {:induction false} RevisitGoesRound(t: Table, head: u16, path: seq<u16>, i: nat, j: nat)
    requires Linked(t, head, path) && At(t, path[|path| - 1]).HasNext() && i < j < |path| && path[i] == path[j]
    ensures At(t, path[|path| - 1]).next in path
    decreases |path| - j
  {
    assert At(t, path[i]).next == path[i + 1];
    if j + 1 < |path| {
      RevisitGoesRound(t, head, path, i + 1, j + 1);
    }
  }

  /** The walk gives up with `TooLong` on exactly the trails that link as many lawful descriptors as the
      table has and still go on. The error means a cycle if and only if the trail goes on inside the table:
      then what it goes on to is a descriptor it visited before. */
  lemma TooLongExactly(t: Table, head: u16)
    requires |t| > 0
    ensures WalkChain(t, head).error == Some(TooLong(|t|)) <==> exists path :: Overlong(t, head, path)
    ensures forall path | Overlong(t, head, path) ::
        var next := At(t, path[|path| - 1]).next; next in path <==> next < |t|
  {
    hide Walk, Lawful, Links, Descriptor.HasNext;
    RefusesExactly(t, head, TooLong(|t|));
    if WalkChain(t, head).error == Some(TooLong(|t|)) {
      var path, i :| Refused(t, head, path, i, TooLong(|t|));
      assert Overlong(t, head, path);
    }
    forall path | Overlong(t, head, path)
      ensures WalkChain(t, head).error == Some(TooLong(|t|))
      ensures var next := At(t, path[|path| - 1]).next; next in path <==> next < |t|
    {
      assert Refused(t, head, path, At(t, path[|path| - 1]).next, TooLong(|t|));
      OverlongRepeats(t, head, path);
    }
  }

  lemma OverlongRepeats(t: Table, head: u16, path: seq<u16>)
    requires Overlong(t, head, path)
    ensures var next := At(t, path[|path| - 1]).next; next in path <==> next < |t|
  {
    if Distinct(path) {
      Pigeonhole(path, |t|);
    } else {
      var i, j :| 0 <= i < j < |path| && path[i] == path[j];
      RevisitGoesRound(t, head, path, i, j);
    }
  }

  /** A trail that goes back to one of its own descriptors can be followed for ever. */
  lemma {:induction false} CycleNeverEnds(t: Table, head: u16, path: seq<u16>, n: nat) returns (longer: seq<u16>)
    requires Linked(t, head, path) && At(t, path[|path| - 1]).HasNext() && At(t, path[|path| - 1]).next in path
    ensures Linked(t, head, longer) && |longer| == |path| + n && At(t, longer[|longer| - 1]).HasNext()
    decreases n
  {
    if n == 0 {
      longer := path;
    } else {
      var next := At(t, path[|path| - 1]).next;
      var i :| 0 <= i < |path| && path[i] == next;
      assert At(t, next).next == if i + 1 < |path| then path[i + 1] else next;
      longer := CycleNeverEnds(t, head, path + [next], n - 1);
    }
  }

  /** A one-entry table whose only descriptor names entry 60000 reports `TooLong`, and has no cycle. */
  lemma TooLongWithoutCycle()
    ensures var t: Table := [Ok(Descriptor(0, 1, F_NEXT, 60000))];
      WalkChain(t, 0).error == Some(TooLong(1)) && Overlong(t, 0, [0]) && At(t, 0).next !in [0]
  {
    var t: Table := [Ok(Descriptor(0, 1, F_NEXT, 60000))];
    var c := Advance(t, Start(t, 0)).0;
    assert c == Cursor(60000, 0, 1, false, false);
    assert Walk(t, c) == Walked([], Some(TooLong(1)));
    assert DescsOf(t, [0]) == [Descriptor(0, 1, F_NEXT, 60000)];
    assert Bytes(DescsOf(t, [0])[1..]) == 0;
  }

  ghost predicate Overlong(t: Table, head: u16, path: seq<u16>) {
    && Linked(t, head, path) && |path| == |t|
    && At(t, path[|path| - 1]).HasNext() && Lawful(DescsOf(t, path))
  }
}
