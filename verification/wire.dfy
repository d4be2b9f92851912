/** The rings byte by byte, as the two halves of a queue must agree on them (sections 2.7.5 to 2.7.8): addresses
    and weights as numbers, without the encoding or the fields of the model. */
module Wire {
  import opened Words
  import opened VirtqLayout
  import opened Rings
  import opened DriverSpec
  import opened DriverFacts
  import opened DeviceSpec
  import opened DeviceFacts
  import opened Runs

  /** The `n` bytes at `a` are the number `v`, least significant byte first. */
  ghost predicate Little(m: seq<byte>, a: nat, n: nat, v: nat) {
    a + n <= |m| && forall i: nat | i < n :: m[a + i] == v / Pow256(i) % 256
  }

  lemma FieldOnWire(m: seq<byte>, l: Layout, f: Field)
    requires l.Valid() && RingsIn(m, l) && l.Has(f)
    ensures Little(m, l.At(f), l.Width(f), Num(m, l, f))
  {
    hide Layout.At, Layout.Width, FromLE;
    FieldInside(l, f);
    var a, n := l.At(f), l.Width(f);
    DecodedBytes(m[a..a + n]);
  }

  /** A descriptor of 16 bytes: address, length, flags, and the index of the next one. */
  ghost predicate DescriptorOnWire(m: seq<byte>, a: nat, d: Descriptor) {
    && Little(m, a, 8, d.addr) && Little(m, a + 8, 4, d.len)
    && Little(m, a + 12, 2, d.flags) && Little(m, a + 14, 2, d.next)
  }

  lemma DescriptorsOnWire(m: seq<byte>, l: Layout, i: nat)
    requires l.Valid() && RingsIn(m, l) && i < l.queueSize
    ensures DescriptorOnWire(m, l.descTable + 16 * i, View(m, l).table[i])
  {
    hide Num, Little, AvailRingAt, UsedRingAt;
    FieldOnWire(m, l, DescAddr(i));
    FieldOnWire(m, l, DescLen(i));
    FieldOnWire(m, l, DescFlags(i));
    FieldOnWire(m, l, DescNext(i));
  }

  /** The driver's ring: flags, index, one slot of two bytes for each entry, and the event it asks for. */
  lemma AvailOnWire(m: seq<byte>, l: Layout, i: nat)
    requires l.Valid() && RingsIn(m, l) && i < l.queueSize
    ensures var r := View(m, l);
      && Little(m, l.availRing, 2, r.availFlags) && Little(m, l.availRing + 2, 2, r.availIdx)
      && Little(m, l.availRing + 4 + 2 * i, 2, r.availRing[i])
      && Little(m, l.availRing + 4 + 2 * l.queueSize, 2, r.usedEvent)
  {
    hide Num, Little, TableAt, UsedRingAt;
    FieldOnWire(m, l, AvailFlags);
    FieldOnWire(m, l, AvailIdx);
    FieldOnWire(m, l, AvailSlot(i));
    FieldOnWire(m, l, UsedEvent);
  }

  /** The device's ring: flags, index, a head and a length of four bytes each for each entry, and the event. */
  lemma UsedOnWire(m: seq<byte>, l: Layout, i: nat)
    requires l.Valid() && RingsIn(m, l) && i < l.queueSize
    ensures var r := View(m, l);
      && Little(m, l.usedRing, 2, r.usedFlags) && Little(m, l.usedRing + 2, 2, r.usedIdx)
      && Little(m, l.usedRing + 4 + 8 * i, 4, r.usedRing[i].0) && Little(m, l.usedRing + 8 + 8 * i, 4, r.usedRing[i].1)
      && Little(m, l.usedRing + 4 + 8 * l.queueSize, 2, r.availEvent)
  {
    hide Num, Little, TableAt, AvailRingAt;
    FieldOnWire(m, l, UsedFlags);
    FieldOnWire(m, l, UsedIdx);
    FieldOnWire(m, l, UsedId(i));
    FieldOnWire(m, l, UsedLen(i));
    FieldOnWire(m, l, AvailEvent);
  }

  // ---------------------------------------------------------------- what the operations leave there

  /** In entry `indices[i]` of the table stands the `i`-th descriptor of a chain over `buffers`: flag 2 for a buffer the
      device may write, flag 1 and the index of the next descriptor unless it is the last. */
  ghost predicate PartOnWire(m: seq<byte>, table: nat, indices: seq<u16>, buffers: seq<Buffer>, i: nat)
    requires i < |buffers| == |indices|
  {
    var at, last := table + 16 * (indices[i] as nat), i + 1 == |buffers|;
    && Little(m, at, 8, buffers[i].addr) && Little(m, at + 8, 4, buffers[i].len)
    && Little(m, at + 12, 2, (if buffers[i].deviceWritable then 2 else 0) + (if last then 0 else 1))
    && Little(m, at + 14, 2, if last then 0 else indices[i + 1])
  }

  lemma ChainPart(m: seq<byte>, l: Layout, indices: seq<u16>, buffers: seq<Buffer>, i: nat)
    requires l.Valid() && RingsIn(m, l) && i < |buffers| == |indices| && indices[i] < l.queueSize
    requires View(m, l).table[indices[i]] == DescFor(indices, buffers, i)
    ensures PartOnWire(m, l.descTable, indices, buffers, i)
  {
    hide View, Little;
    DescriptorsOnWire(m, l, indices[i]);
  }

  /** The bytes `add_chain` leaves in the rings: a descriptor for each buffer, in the entries it took; the head in the
      slot of the entry; and the count of entries published. */
  lemma ChainOnWire(l: Layout, m: seq<byte>, drv: DriverState, buffers: seq<Buffer>)
    requires l.Valid() && RingsIn(m, l) && Partition(l.queueSize, drv.free, drv.outstanding)
    requires 0 < |buffers| <= |drv.free|
    ensures var m', taken := SubmitMem(l, m, drv, buffers), Taken(drv.free, |buffers|);
      && (forall i | 0 <= i < |buffers| :: PartOnWire(m', l.descTable, taken, buffers, i))
      && Little(m', l.availRing + 4 + 2 * (drv.availIdx % l.queueSize), 2, taken[0])
      && Little(m', l.availRing + 2, 2, (drv.availIdx + 1) % 0x1_0000)
  {
    hide View, SubmitMem, Partition, Little, PartOnWire, Taken, PowerOfTwo, DescFor;
    var m', taken := SubmitMem(l, m, drv, buffers), Taken(drv.free, |buffers|);
    PublishSafe(l.queueSize, drv, |buffers|);
    SubmitView(l, m, drv, buffers);
    AvailOnWire(m', l, Slot(drv.availIdx, l.queueSize));
    forall i | 0 <= i < |buffers| ensures PartOnWire(m', l.descTable, taken, buffers, i) {
      ChainPart(m', l, taken, buffers, i);
    }
  }

  /** The bytes `add_used` leaves in the rings: head and length in the slot of the completion, and the count. */
  lemma CompletionOnWire(l: Layout, m: seq<byte>, n: u16, head: u16, len: u32)
    requires l.Valid() && RingsIn(m, l)
    ensures var m', slot := PutUsed(m, l, n, head, len), n % l.queueSize;
      && Little(m', l.usedRing + 4 + 8 * slot, 4, head) && Little(m', l.usedRing + 8 + 8 * slot, 4, len)
      && Little(m', l.usedRing + 2, 2, (n + 1) % 0x1_0000)
  {
    hide View, PutUsed, Little, PowerOfTwo;
    ViewOfPutUsed(m, l, n, head, len);
    UsedOnWire(PutUsed(m, l, n, head, len), l, Slot(n, l.queueSize));
  }
}
