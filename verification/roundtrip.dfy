/** Building a chain and walking it undo each other. */
module RoundTrip {
  import opened Words
  import opened Rings
  import opened ChainWalk
  import opened Acceptance
  import opened DriverSpec

  function TotalLength(buffers: seq<Buffer>): nat {
    if buffers == [] then 0 else buffers[0].len + TotalLength(buffers[1..])
  }

  /** What a walk shows of a descriptor's buffer. */
  function BufferOf(d: Descriptor): Buffer {
    Buffer(d.addr, d.len, d.IsWriteOnly())
  }

  function BuffersOf(ds: seq<Descriptor>): (bs: seq<Buffer>)
    ensures |bs| == |ds|
  {
    seq(|ds|, i requires 0 <= i < |ds| => BufferOf(ds[i]))
  }

  /** The table holds a chain over `buffers` at `indices`. */
  ghost predicate Holds(t: seq<Descriptor>, indices: seq<u16>, buffers: seq<Buffer>) {
    && |indices| == |buffers|
    && forall i | 0 <= i < |buffers| :: indices[i] < |t| && t[indices[i]] == DescFor(indices, buffers, i)
  }

  lemma {:induction false} BytesOfBuffers(ds: seq<Descriptor>, buffers: seq<Buffer>)
    requires BuffersOf(ds) == buffers
    ensures Bytes(ds) == TotalLength(buffers)
  {
    if ds != [] {
      assert buffers[0] == BufferOf(ds[0]) && buffers[1..] == BuffersOf(ds[1..]);
      BytesOfBuffers(ds[1..], buffers[1..]);
    }
  }

  lemma {:induction false} WritableStays(buffers: seq<Buffer>, i: nat, j: nat)
    requires WellOrdered(buffers) && i <= j < |buffers| && buffers[i].deviceWritable
    ensures buffers[j].deviceWritable
    decreases j - i
  {
    if i < j {
      WritableStays(buffers, i + 1, j);
    }
  }

  lemma ShowsBuffer(indices: seq<u16>, buffers: seq<Buffer>, i: nat)
    requires i < |buffers| == |indices|
    ensures BufferOf(DescFor(indices, buffers, i)) == buffers[i]
    ensures i + 1 < |buffers| ==> DescFor(indices, buffers, i).next == indices[i + 1]
  {
  }

  lemma HeldTerminates(t: seq<Descriptor>, indices: seq<u16>, buffers: seq<Buffer>)
    requires |t| < 0x1_0000 && Holds(t, indices, buffers) && buffers != []
    ensures Terminates(OkTable(t), indices[0], indices)
    ensures forall i | 0 <= i < |indices| :: DescsOf(OkTable(t), indices)[i] == DescFor(indices, buffers, i)
  {
    hide Descriptor.IsWriteOnly, Descriptor.HasNext, Descriptor.IsIndirect;
  }

  lemma HeldIsLawful(t: seq<Descriptor>, indices: seq<u16>, buffers: seq<Buffer>)
    requires |t| < 0x1_0000 && Holds(t, indices, buffers) && WellOrdered(buffers)
    ensures Terminates(OkTable(t), indices[0], indices)
    ensures var ds := DescsOf(OkTable(t), indices); BuffersOf(ds) == buffers && Ordered(ds)
  {
    HeldTerminates(t, indices, buffers);
    var ds := DescsOf(OkTable(t), indices);
    hide DescFor, BufferOf, DescsOf, Terminates, WellOrdered, Holds,
      Descriptor.IsWriteOnly, Descriptor.HasNext, Descriptor.IsIndirect;
    forall i | 0 <= i < |ds| ensures BufferOf(ds[i]) == buffers[i] {
      ShowsBuffer(indices, buffers, i);
    }
    forall i, j | 0 <= i < j < |ds| && ds[i].IsWriteOnly() ensures ds[j].IsWriteOnly() {
      WritableStays(buffers, i, j);
    }
  }

  /** How many buffers of a chain come before their total reaches 2^32 bytes. */
  function Walkable(buffers: seq<Buffer>): (n: nat)
    ensures n <= |buffers|
  {
    if TotalLength(buffers) < 0x1_0000_0000 then |buffers| else Walkable(buffers[..|buffers| - 1])
  }

  lemma {:induction false} WalkableIs(buffers: seq<Buffer>)
    ensures var n := Walkable(buffers);
      && TotalLength(buffers[..n]) < 0x1_0000_0000
      && (n == |buffers| <==> TotalLength(buffers) < 0x1_0000_0000)
      && (n < |buffers| ==> TotalLength(buffers[..n + 1]) >= 0x1_0000_0000)
  {
    var k := |buffers|;
    assert buffers[..k] == buffers;
    if TotalLength(buffers) >= 0x1_0000_0000 {
      var front := buffers[..k - 1];
      WalkableIs(front);
      var n := Walkable(front);
      assert front[..n] == buffers[..n] && (n < k - 1 ==> front[..n + 1] == buffers[..n + 1]);
    }
  }

  /** Walking a written chain from its head yields exactly the buffers it was built from, in order and with
      their directions, provided their lengths total less than 2^32; otherwise it is refused for that, where the
      total reaches 2^32. */
  lemma WalkHeld(t: seq<Descriptor>, indices: seq<u16>, buffers: seq<Buffer>)
    requires |t| < 0x1_0000 && Holds(t, indices, buffers) && Distinct(indices) && WellOrdered(buffers)
    ensures var w := WalkChain(OkTable(t), indices[0]);
      && w.error == (if TotalLength(buffers) < 0x1_0000_0000 then None else Some(TooManyBytes))
      && BuffersOf(w.descs) == buffers[..Walkable(buffers)]
  {
    hide BuffersOf, Ordered, TotalLength, Bytes, WalkChain;
    var ot := OkTable(t);
    Pigeonhole(indices, |t|);
    HeldIsLawful(t, indices, buffers);
    WalkableIs(buffers);
    var ds, n := DescsOf(ot, indices), Walkable(buffers);
    BytesOfBuffers(ds, buffers);
    if n == |buffers| {
      AcceptsExactly(ot, indices[0]);
      assert Lawful(ds) && buffers[..n] == buffers;
    } else {
      WalkStopsAt(ot, indices[0], indices, buffers, n);
    }
  }

  lemma WalkStopsAt(t: Table, head: u16, path: seq<u16>, buffers: seq<Buffer>, n: nat)
    requires Linked(t, head, path) && n < |path| == |buffers| <= |t|
    requires BuffersOf(DescsOf(t, path)) == buffers && Ordered(DescsOf(t, path))
    requires TotalLength(buffers[..n]) < 0x1_0000_0000 <= TotalLength(buffers[..n + 1])
    ensures WalkChain(t, head).error == Some(TooManyBytes) && BuffersOf(WalkChain(t, head).descs) == buffers[..n]
  {
    hide Ordered, TotalLength, Bytes, WalkChain, LeadsTo, Links;
    var ds := DescsOf(t, path);
    assert BuffersOf(ds[..n]) == buffers[..n] && BuffersOf(ds[..n + 1]) == buffers[..n + 1];
    BytesOfBuffers(ds[..n], buffers[..n]);
    BytesOfBuffers(ds[..n + 1], buffers[..n + 1]);
    TrailBefore(t, head, path, n);
    assert Refused(t, head, path[..n], path[n], TooManyBytes);
    RefusesExactly(t, head, TooManyBytes);
  }
}
