/** The rings a region holds: the bytes of `[descTable, End)` read as one record. */
module Rings {
  import opened Words
  import opened Memory
  import opened VirtqLayout

  const F_NEXT: u16 := 1
  const F_WRITE: u16 := 2
  const F_INDIRECT: u16 := 4

  datatype Descriptor = Descriptor(addr: u64, len: u32, flags: u16, next: u16) {
    predicate HasNext() { flags / F_NEXT % 2 == 1 }
    predicate IsWriteOnly() { flags / F_WRITE % 2 == 1 }
    predicate IsIndirect() { flags / F_INDIRECT % 2 == 1 }
  }

  /** The flags by their bits: bit 0 says that `next` is valid, bit 1 that the buffer is for the device to write,
      bit 2 that the descriptor is indirect. */
  lemma FlagBits(d: Descriptor, bit0: nat, bit1: nat, bit2: nat, rest: nat)
    requires bit0 <= 1 && bit1 <= 1 && bit2 <= 1 && d.flags == bit0 + 2 * bit1 + 4 * bit2 + 8 * rest
    ensures d.HasNext() <==> bit0 == 1
    ensures d.IsWriteOnly() <==> bit1 == 1
    ensures d.IsIndirect() <==> bit2 == 1
  {
    assert d.flags / 2 == bit1 + 2 * bit2 + 4 * rest;
    assert d.flags / 4 == bit2 + 2 * rest;
  }

  datatype Rings = Rings(
    table: seq<Descriptor>,
    availFlags: u16, availIdx: u16, availRing: seq<u16>, usedEvent: u16,
    padding: nat,
    usedFlags: u16, usedIdx: u16, usedRing: seq<(u32, u32)>, availEvent: u16)

  predicate RingsIn(m: seq<byte>, l: Layout) {
    l.End() <= |m|
  }

  /** The number a field holds. */
  function Num(m: seq<byte>, l: Layout, f: Field): (v: nat)
    requires l.Valid() && RingsIn(m, l) && l.Has(f)
    ensures v < Pow256(l.Width(f))
  {
    FieldInside(l, f);
    Word(m, l.At(f), l.Width(f))
  }

  /** The region after storing `v` into a field. */
  function Put(m: seq<byte>, l: Layout, f: Field, v: nat): (r: seq<byte>)
    requires l.Valid() && RingsIn(m, l) && l.Has(f)
    ensures |r| == |m|
  {
    FieldInside(l, f);
    Patch(m, l.At(f), ToLE(v, l.Width(f)))
  }

  lemma FieldInside(l: Layout, f: Field)
    requires l.Valid() && l.Has(f)
    ensures l.descTable <= l.At(f) && l.At(f) + l.Width(f) <= l.End()
  {
  }

  /** Storing into one field changes that field and no other. */
  lemma NumOfPut(m: seq<byte>, l: Layout, f: Field, v: nat, g: Field)
    requires l.Valid() && RingsIn(m, l) && l.Has(f) && l.Has(g) && v < Pow256(l.Width(f))
    ensures Num(Put(m, l, f, v), l, g) == if f == g then v else Num(m, l, g)
  {
    hide Layout.At, Layout.Width, Patch, ToLE, FromLE, Layout.Has;
    if f == g {
      FieldInside(l, f);
      WordOfPatch(m, l.At(f), v, l.Width(f));
    } else {
      NumElsewhere(m, l, f, v, g);
    }
  }

  lemma NumElsewhere(m: seq<byte>, l: Layout, f: Field, v: nat, g: Field)
    requires l.Valid() && RingsIn(m, l) && l.Has(f) && l.Has(g) && f != g
    ensures Num(Put(m, l, f, v), l, g) == Num(m, l, g)
  {
    hide Layout.At, Layout.Width, Patch, ToLE, FromLE, Layout.Has, PowerOfTwo;
    FieldInside(l, f);
    FieldInside(l, g);
    FieldsApart(l, f, g);
    PatchReads(m, l.At(f), ToLE(v, l.Width(f)), l.At(g), l.Width(g));
  }

  function DescAt(m: seq<byte>, l: Layout, i: nat): Descriptor
    requires l.Valid() && RingsIn(m, l) && i < l.queueSize
  {
    Widths();
    Descriptor(Num(m, l, DescAddr(i)), Num(m, l, DescLen(i)), Num(m, l, DescFlags(i)), Num(m, l, DescNext(i)))
  }

  function TableAt(m: seq<byte>, l: Layout): (t: seq<Descriptor>)
    requires l.Valid() && RingsIn(m, l)
    ensures |t| == l.queueSize
  {
    seq(l.queueSize, i requires 0 <= i < l.queueSize => DescAt(m, l, i))
  }

  function AvailRingAt(m: seq<byte>, l: Layout): (t: seq<u16>)
    requires l.Valid() && RingsIn(m, l)
    ensures |t| == l.queueSize
  {
    Widths();
    seq(l.queueSize, i requires 0 <= i < l.queueSize => Num(m, l, AvailSlot(i)) as u16)
  }

  function UsedRingAt(m: seq<byte>, l: Layout): (t: seq<(u32, u32)>)
    requires l.Valid() && RingsIn(m, l)
    ensures |t| == l.queueSize
  {
    Widths();
    seq(l.queueSize, i requires 0 <= i < l.queueSize =>
      (Num(m, l, UsedId(i)) as u32, Num(m, l, UsedLen(i)) as u32))
  }

  function View(m: seq<byte>, l: Layout): (r: Rings)
    requires l.Valid() && RingsIn(m, l)
    ensures |r.table| == |r.availRing| == |r.usedRing| == l.queueSize
  {
    Widths();
    Rings(
      TableAt(m, l),
      Num(m, l, AvailFlags), Num(m, l, AvailIdx), AvailRingAt(m, l), Num(m, l, UsedEvent),
      Num(m, l, Padding),
      Num(m, l, UsedFlags), Num(m, l, UsedIdx), UsedRingAt(m, l), Num(m, l, AvailEvent))
  }

  lemma ViewScalars(m: seq<byte>, l: Layout)
    requires l.Valid() && RingsIn(m, l)
    ensures var r := View(m, l);
      && r.availIdx == Num(m, l, AvailIdx) && r.usedEvent == Num(m, l, UsedEvent)
      && r.usedIdx == Num(m, l, UsedIdx) && r.availEvent == Num(m, l, AvailEvent)
      && r.usedFlags == Num(m, l, UsedFlags)
  {
    hide Num;
  }

  /** `m'` differs from `m` at most inside `[lo, hi)`. */
  ghost predicate SameOutside(m: seq<byte>, m': seq<byte>, lo: nat, hi: nat) {
    |m| == |m'| && forall p | 0 <= p < |m| && !(lo <= p < hi) :: m'[p] == m[p]
  }

  /** `m'` differs from `m` at most outside the rings. */
  ghost predicate SameRings(m: seq<byte>, m': seq<byte>, l: Layout) {
    |m| == |m'| && forall p | 0 <= p < |m| && l.descTable <= p < l.End() :: m'[p] == m[p]
  }

  /** The view shows the numbers of the fields and nothing else. */
  lemma ViewFromNums(m: seq<byte>, m': seq<byte>, l: Layout)
    requires l.Valid() && RingsIn(m, l) && RingsIn(m', l)
    requires forall f: Field | l.Has(f) :: Num(m', l, f) == Num(m, l, f)
    ensures View(m', l) == View(m, l)
  {
    hide Num, Layout.At, Layout.Width;
    assert TableAt(m', l) == TableAt(m, l);
    assert AvailRingAt(m', l) == AvailRingAt(m, l);
    assert UsedRingAt(m', l) == UsedRingAt(m, l);
  }

  lemma ViewKept(m: seq<byte>, m': seq<byte>, l: Layout)
    requires l.Valid() && RingsIn(m, l) && SameRings(m, m', l)
    ensures View(m', l) == View(m, l)
  {
    hide Layout.At, Layout.Width, FromLE, View;
    forall f: Field | l.Has(f) ensures Num(m', l, f) == Num(m, l, f) {
      FieldInside(l, f);
      assert m'[l.At(f)..l.At(f) + l.Width(f)] == m[l.At(f)..l.At(f) + l.Width(f)];
    }
    ViewFromNums(m, m', l);
  }

  /** The view misses nothing: regions with equal rings that agree outside are equal. */
  lemma ViewDetermines(m: seq<byte>, m': seq<byte>, l: Layout)
    requires l.Valid() && RingsIn(m, l) && SameOutside(m, m', l.descTable, l.End())
    requires View(m', l) == View(m, l)
    ensures m' == m
  {
    hide View, Layout.At, Layout.Width, Layout.Has, ToLE, FromLE;
    forall p | 0 <= p < |m| ensures m'[p] == m[p] {
      if l.descTable <= p < l.End() {
        var f := FieldsCover(l, p);
        FieldInside(l, f);
        SameNumber(m, m', l, f);
        var a, n := l.At(f), l.Width(f);
        EncodeDecode(m[a..a + n]);
        EncodeDecode(m'[a..a + n]);
        assert m[a..a + n][p - a] == m'[a..a + n][p - a];
      }
    }
  }

  lemma SameNumber(m: seq<byte>, m': seq<byte>, l: Layout, f: Field)
    requires l.Valid() && RingsIn(m, l) && |m'| == |m| && View(m', l) == View(m, l) && l.Has(f)
    ensures Num(m', l, f) == Num(m, l, f)
  {
    var r, r' := View(m, l), View(m', l);
    match f
    case DescAddr(i) => assert r.table[i] == r'.table[i];
    case DescLen(i) => assert r.table[i] == r'.table[i];
    case DescFlags(i) => assert r.table[i] == r'.table[i];
    case DescNext(i) => assert r.table[i] == r'.table[i];
    case AvailSlot(i) => assert r.availRing[i] == r'.availRing[i];
    case UsedId(i) => assert r.usedRing[i] == r'.usedRing[i];
    case UsedLen(i) => assert r.usedRing[i] == r'.usedRing[i];
    case _ =>
  }

  /** The record with one field replaced. */
  function Set(r: Rings, f: Field, v: nat): Rings
    requires match f
             case DescAddr(i) => i < |r.table| && v < 0x1_0000_0000_0000_0000
             case DescLen(i) => i < |r.table| && v < 0x1_0000_0000
             case DescFlags(i) => i < |r.table| && v < 0x1_0000
             case DescNext(i) => i < |r.table| && v < 0x1_0000
             case AvailSlot(i) => i < |r.availRing| && v < 0x1_0000
             case UsedId(i) => i < |r.usedRing| && v < 0x1_0000_0000
             case UsedLen(i) => i < |r.usedRing| && v < 0x1_0000_0000
             case Padding => true
             case _ => v < 0x1_0000
  {
    match f
    case DescAddr(i) => r.(table := r.table[i := r.table[i].(addr := v)])
    case DescLen(i) => r.(table := r.table[i := r.table[i].(len := v)])
    case DescFlags(i) => r.(table := r.table[i := r.table[i].(flags := v)])
    case DescNext(i) => r.(table := r.table[i := r.table[i].(next := v)])
    case AvailFlags => r.(availFlags := v)
    case AvailIdx => r.(availIdx := v)
    case AvailSlot(i) => r.(availRing := r.availRing[i := v])
    case UsedEvent => r.(usedEvent := v)
    case Padding => r.(padding := v)
    case UsedFlags => r.(usedFlags := v)
    case UsedIdx => r.(usedIdx := v)
    case UsedId(i) => r.(usedRing := r.usedRing[i := (v, r.usedRing[i].1)])
    case UsedLen(i) => r.(usedRing := r.usedRing[i := (r.usedRing[i].0, v)])
    case AvailEvent => r.(availEvent := v)
  }

  ghost predicate Stored(m: seq<byte>, m': seq<byte>, l: Layout, f: Field, v: nat)
    requires l.Valid() && RingsIn(m, l) && RingsIn(m', l)
  {
    forall g: Field | l.Has(g) :: Num(m', l, g) == if f == g then v else Num(m, l, g)
  }

  lemma TableStored(m: seq<byte>, m': seq<byte>, l: Layout, f: Field, v: nat)
    requires l.Valid() && RingsIn(m, l) && RingsIn(m', l) && l.Has(f) && v < Pow256(l.Width(f))
    requires Stored(m, m', l, f, v)
    ensures TableAt(m', l) == (Widths(); Set(View(m, l), f, v).table)
  {
    hide Num, Pow256, Layout.At, AvailRingAt, UsedRingAt, PowerOfTwo;
    Widths();
    var t, t', s := TableAt(m, l), TableAt(m', l), Set(View(m, l), f, v).table;
    forall i | 0 <= i < l.queueSize ensures t'[i] == s[i] {
    }
  }

  lemma AvailRingStored(m: seq<byte>, m': seq<byte>, l: Layout, f: Field, v: nat)
    requires l.Valid() && RingsIn(m, l) && RingsIn(m', l) && l.Has(f) && v < Pow256(l.Width(f))
    requires Stored(m, m', l, f, v)
    ensures AvailRingAt(m', l) == (Widths(); Set(View(m, l), f, v).availRing)
  {
    hide Num, Pow256;
    Widths();
  }

  lemma UsedRingStored(m: seq<byte>, m': seq<byte>, l: Layout, f: Field, v: nat)
    requires l.Valid() && RingsIn(m, l) && RingsIn(m', l) && l.Has(f) && v < Pow256(l.Width(f))
    requires Stored(m, m', l, f, v)
    ensures UsedRingAt(m', l) == (Widths(); Set(View(m, l), f, v).usedRing)
  {
    hide Num, Pow256;
    Widths();
  }

  lemma ViewStored(m: seq<byte>, m': seq<byte>, l: Layout, f: Field, v: nat)
    requires l.Valid() && RingsIn(m, l) && RingsIn(m', l) && l.Has(f) && v < Pow256(l.Width(f))
    requires Stored(m, m', l, f, v)
    ensures View(m', l) == (Widths(); Set(View(m, l), f, v))
  {
    hide Num, Pow256, TableAt, AvailRingAt, UsedRingAt;
    Widths();
    TableStored(m, m', l, f, v);
    AvailRingStored(m, m', l, f, v);
    UsedRingStored(m, m', l, f, v);
    assert forall g: Field | g in {AvailFlags, AvailIdx, UsedEvent, Padding, UsedFlags, UsedIdx, AvailEvent} ::
        l.Has(g) && Num(m', l, g) == if f == g then v else Num(m, l, g);
  }

  /** Storing bytes into a field is updating the record. */
  lemma ViewOfPut(m: seq<byte>, l: Layout, f: Field, v: nat)
    requires l.Valid() && RingsIn(m, l) && l.Has(f) && v < Pow256(l.Width(f))
    ensures RingsIn(Put(m, l, f, v), l)
    ensures (Widths(); View(Put(m, l, f, v), l) == Set(View(m, l), f, v))
  {
    hide View, Set, Num, Put;
    forall g: Field | l.Has(g) ensures Num(Put(m, l, f, v), l, g) == if f == g then v else Num(m, l, g) {
      NumOfPut(m, l, f, v, g);
    }
    ViewStored(m, Put(m, l, f, v), l, f, v);
  }

  /** Storing into a field leaves the region outside the rings alone. */
  lemma PutStaysInside(m: seq<byte>, l: Layout, f: Field, v: nat)
    requires l.Valid() && RingsIn(m, l) && l.Has(f)
    ensures SameOutside(m, Put(m, l, f, v), l.descTable, l.End())
  {
    hide Layout.At, Layout.Width;
    FieldInside(l, f);
  }
}
