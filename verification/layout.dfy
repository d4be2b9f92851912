/** Where each part of a split virtqueue lives (toy-virtq-raw/src/layout.rs; VIRTIO 1.2, section 2.7). */
module VirtqLayout {
  import opened Words

  // ---------------------------------------------------------------- queue sizes

  predicate PowerOfTwo(n: nat) {
    n == 1 || (n > 0 && n % 2 == 0 && PowerOfTwo(n / 2))
  }

  predicate QueueSize(n: nat) {
    PowerOfTwo(n) && n <= 32768
  }

  lemma {:induction false} PowersDivide(a: nat, b: nat)
    requires PowerOfTwo(a) && PowerOfTwo(b) && a <= b
    ensures exists j: nat :: j > 0 && b == a * j
  {
    if a == 1 {
      assert b == a * b;
    } else {
      PowersDivide(a / 2, b / 2);
      var j: nat :| j > 0 && b / 2 == a / 2 * j;
      calc {
        b;
        2 * (a / 2 * j);
        (2 * (a / 2)) * j;
        a * j;
      }
    }
  }

  /** The ring slot of the `k`-th entry ever published. */
  function Slot(k: int, qs: nat): (s: nat)
    requires qs > 0
    ensures s < qs
  {
    k % qs
  }

  /** Slots are used in turn: the first entry goes to slot 0, each further one to the next slot, and after the last
      comes slot 0 again. */
  lemma SlotsInTurn(k: nat, qs: nat)
    requires qs > 0
    ensures k < qs ==> Slot(k, qs) == k
    ensures Slot(k + 1, qs) == if Slot(k, qs) == qs - 1 then 0 else Slot(k, qs) + 1
    ensures Slot(k + qs, qs) == Slot(k, qs)
  {
    var q, r := k / qs, k % qs;
    assert k == qs * q + r;
    assert qs * (q + 1) == qs * q + qs;
    DivideOnce(k + qs, qs, q + 1, r);
    if r == qs - 1 {
      DivideOnce(k + 1, qs, q + 1, 0);
    } else {
      DivideOnce(k + 1, qs, q, r + 1);
    }
    if k < qs {
      DivideOnce(k, qs, 0, k);
    }
  }

  lemma WholeRange()
    ensures PowerOfTwo(0x1_0000)
  {
    assert PowerOfTwo(0x10);
    assert PowerOfTwo(0x100);
    assert PowerOfTwo(0x1000);
  }

  /** A wrapped counter names the same slot as the unbounded count, because every queue size divides
      65536. */
  lemma WrapKeepsSlot(k: nat, qs: nat)
    requires QueueSize(qs)
    ensures Slot(Wrap(k), qs) == Slot(k, qs)
  {
    hide PowerOfTwo;
    WholeRange();
    PowersDivide(qs, 0x1_0000);
    var j: nat :| j > 0 && 0x1_0000 == qs * j;
    RemainderOfRest(k, qs, j);
  }

  lemma RemainderOfRest(k: nat, d: nat, j: nat)
    requires d > 0 && 0x1_0000 == d * j
    ensures Wrap(k) % d == k % d
  {
    var t, w := k / 0x1_0000, Wrap(k);
    var q, r := w / d, w % d;
    assert w == d * q + r;
    assert d * j * t == d * (j * t);
    assert k == d * (j * t) + d * q + r;
    assert d * (j * t) + d * q == d * (j * t + q);
    DivideOnce(k, d, j * t + q, r);
  }

  lemma RemaindersDiffer(a: nat, b: nat, d: nat)
    requires a < b < a + d
    ensures a % d != b % d
  {
    var x, y := a / d, b / d;
    if a % d == b % d {
      assert b - a == d * y - d * x == d * (y - x);
      NoMultipleBetween(d, y - x);
    }
  }

  /** Any `qs` consecutive counter values occupy different slots, also where the counter wraps. */
  lemma SlotsDistinct(a: nat, b: nat, qs: nat)
    requires QueueSize(qs) && a < b < a + qs
    ensures Slot(Wrap(a), qs) != Slot(Wrap(b), qs) && Slot(a, qs) != Slot(b, qs)
  {
    WrapKeepsSlot(a, qs);
    WrapKeepsSlot(b, qs);
    RemaindersDiffer(a, b, qs);
  }

  // ---------------------------------------------------------------- the layout

  const DESC_SIZE := 16

  /** The least multiple of `align` that is at least `v`. */
  function AlignUp(v: nat, align: nat): (r: nat)
    requires align == 2 || align == 4 || align == 8 || align == 16
    ensures v <= r < v + align && r % align == 0
  {
    var q := (v + align - 1) / align;
    assert v + align - 1 == align * q + (v + align - 1) % align;
    DivideOnce(q * align, align, q, 0);
    q * align
  }

  /** Every field of the three rings. `Padding` is the gap in front of the used ring. */
  datatype Field =
    | DescAddr(i: nat) | DescLen(i: nat) | DescFlags(i: nat) | DescNext(i: nat)
    | AvailFlags | AvailIdx | AvailSlot(i: nat) | UsedEvent
    | Padding
    | UsedFlags | UsedIdx | UsedId(i: nat) | UsedLen(i: nat) | AvailEvent

  datatype Layout = Layout(queueSize: u16, descTable: nat, availRing: nat, usedRing: nat) {

    function End(): nat {
      usedRing + 4 + 8 * queueSize + 2
    }

    /** What `New` establishes. */
    ghost predicate Valid() {
      && QueueSize(queueSize)
      && descTable % 16 == 0
      && availRing == descTable + DESC_SIZE * queueSize
      && availRing + 6 + 2 * queueSize <= usedRing < availRing + 6 + 2 * queueSize + 4
      && usedRing % 4 == 0
      && End() < 0x1_0000_0000_0000_0000
    }

    predicate Has(f: Field) {
      match f
      case DescAddr(i) => i < queueSize
      case DescLen(i) => i < queueSize
      case DescFlags(i) => i < queueSize
      case DescNext(i) => i < queueSize
      case AvailSlot(i) => i < queueSize
      case UsedId(i) => i < queueSize
      case UsedLen(i) => i < queueSize
      case _ => true
    }

    /** Address of a field. */
    function At(f: Field): nat {
      match f
      case DescAddr(i) => descTable + i * DESC_SIZE
      case DescLen(i) => descTable + i * DESC_SIZE + 8
      case DescFlags(i) => descTable + i * DESC_SIZE + 12
      case DescNext(i) => descTable + i * DESC_SIZE + 14
      case AvailFlags => availRing
      case AvailIdx => availRing + 2
      case AvailSlot(i) => availRing + 4 + i * 2
      case UsedEvent => availRing + 4 + queueSize * 2
      case Padding => availRing + 6 + queueSize * 2
      case UsedFlags => usedRing
      case UsedIdx => usedRing + 2
      case UsedId(i) => usedRing + 4 + i * 8
      case UsedLen(i) => usedRing + 4 + i * 8 + 4
      case AvailEvent => usedRing + 4 + queueSize * 8
    }

    function Width(f: Field): nat
      requires availRing + 6 + 2 * queueSize <= usedRing
    {
      match f
      case DescAddr(_) => 8
      case DescLen(_) => 4
      case UsedId(_) => 4
      case UsedLen(_) => 4
      case Padding => usedRing - (availRing + 6 + 2 * queueSize)
      case _ => 2
    }

    /** Address of descriptor `index`, unless the index is outside the table. */
    function Desc(index: u16): Option<nat> {
      if index >= queueSize then None else Some(At(DescAddr(index)))
    }
  }

  function New(base: u64, queueSize: u16): (l: Layout)
    requires QueueSize(queueSize)
    requires AlignUp(AlignUp(base, 16) + 18 * queueSize + 6, 4) + 8 * queueSize + 6 < 0x1_0000_0000_0000_0000
    ensures l.Valid() && base <= l.descTable < base + 16 && l.queueSize == queueSize
  {
    var descTable := AlignUp(base, 16);
    var availRing := AlignUp(descTable + DESC_SIZE * queueSize, 2);
    assert (descTable + DESC_SIZE * queueSize) % 2 == 0;
    var usedRing := AlignUp(availRing + 4 + 2 * queueSize + 2, 4);
    Layout(queueSize, descTable, availRing, usedRing)
  }

  lemma SizeBounds(l: Layout)
    requires l.Valid()
    ensures 0 < l.queueSize <= 32768
  {
  }

  predicate Apart(a: nat, n: nat, b: nat, k: nat) {
    a + n <= b || b + k <= a
  }

  datatype Ring = DescTable | Avail | Used

  function RingOf(f: Field): Ring {
    if f.DescAddr? || f.DescLen? || f.DescFlags? || f.DescNext? then DescTable
    else if f.UsedFlags? || f.UsedIdx? || f.UsedId? || f.UsedLen? || f.AvailEvent? then Used
    else Avail
  }

  lemma InRing(l: Layout, f: Field)
    requires l.Valid() && l.Has(f)
    ensures match RingOf(f)
      case DescTable => l.descTable <= l.At(f) && l.At(f) + l.Width(f) <= l.availRing
      case Avail => l.availRing <= l.At(f) && l.At(f) + l.Width(f) <= l.usedRing
      case Used => l.usedRing <= l.At(f) && l.At(f) + l.Width(f) <= l.End()
  {
    hide PowerOfTwo;
  }

  lemma ApartInRing(l: Layout, f: Field, g: Field)
    requires l.Valid() && l.Has(f) && l.Has(g) && f != g && RingOf(f) == RingOf(g)
    ensures Apart(l.At(f), l.Width(f), l.At(g), l.Width(g))
  {
    hide PowerOfTwo;
  }

  /** No two fields share a byte, and all lie inside `[descTable, End)`. */
  lemma FieldsApart(l: Layout, f: Field, g: Field)
    requires l.Valid() && l.Has(f) && l.Has(g) && f != g
    ensures Apart(l.At(f), l.Width(f), l.At(g), l.Width(g))
    ensures l.descTable <= l.At(f) && l.At(f) + l.Width(f) <= l.End()
  {
    hide Layout.At, Layout.Width, Layout.Has, RingOf, PowerOfTwo;
    InRing(l, f);
    InRing(l, g);
    if RingOf(f) == RingOf(g) {
      ApartInRing(l, f, g);
    }
  }

  /** The order of the fields, by address. Each ring begins with its first field, and every other field begins
      where the one before it ends (section 2.7.5, 2.7.6 and 2.7.8). */
  lemma FieldsFollow(l: Layout, i: nat)
    requires l.Valid() && i < l.queueSize
    ensures l.At(DescAddr(0)) == l.descTable && l.At(AvailFlags) == l.availRing && l.At(UsedFlags) == l.usedRing
    ensures l.At(DescLen(i)) == l.At(DescAddr(i)) + 8 && l.At(DescFlags(i)) == l.At(DescLen(i)) + 4
    ensures l.At(DescNext(i)) == l.At(DescFlags(i)) + 2
    ensures l.At(DescNext(i)) + 2 == if i + 1 < l.queueSize then l.At(DescAddr(i + 1)) else l.availRing
    ensures l.At(AvailIdx) == l.At(AvailFlags) + 2 && l.At(AvailSlot(0)) == l.At(AvailIdx) + 2
    ensures l.At(AvailSlot(i)) + 2 == if i + 1 < l.queueSize then l.At(AvailSlot(i + 1)) else l.At(UsedEvent)
    ensures l.At(UsedEvent) + 2 == l.At(Padding) && l.At(Padding) + l.Width(Padding) == l.usedRing
    ensures l.At(UsedIdx) == l.At(UsedFlags) + 2 && l.At(UsedId(0)) == l.At(UsedIdx) + 2
    ensures l.At(UsedLen(i)) == l.At(UsedId(i)) + 4
    ensures l.At(UsedLen(i)) + 4 == if i + 1 < l.queueSize then l.At(UsedId(i + 1)) else l.At(AvailEvent)
    ensures l.At(AvailEvent) + 2 == l.End()
    ensures l.Width(DescAddr(i)) == 8 && l.Width(DescLen(i)) == 4
    ensures l.Width(DescFlags(i)) == l.Width(DescNext(i)) == 2
    ensures l.Width(AvailFlags) == l.Width(AvailIdx) == l.Width(AvailSlot(i)) == l.Width(UsedEvent) == 2
    ensures l.Width(UsedFlags) == l.Width(UsedIdx) == l.Width(AvailEvent) == 2
    ensures l.Width(UsedId(i)) == l.Width(UsedLen(i)) == 4
  {
    hide PowerOfTwo;
  }

  /** The fields leave no byte of `[descTable, End)` uncovered, and the last one ends at `End`. */
  lemma FieldsCover(l: Layout, p: nat) returns (f: Field)
    requires l.Valid() && l.descTable <= p < l.End()
    ensures l.Has(f) && l.At(f) <= p < l.At(f) + l.Width(f)
    ensures l.At(AvailEvent) + l.Width(AvailEvent) == l.End()
  {
    var a, u := p - l.availRing, p - l.usedRing;
    if a < 0 {
      var i, o := (p - l.descTable) / 16, (p - l.descTable) % 16;
      f := if o < 8 then DescAddr(i) else if o < 12 then DescLen(i)
           else if o < 14 then DescFlags(i) else DescNext(i);
    } else if u < 0 {
      f := if a < 2 then AvailFlags else if a < 4 then AvailIdx
           else if a < 4 + 2 * l.queueSize then AvailSlot((a - 4) / 2)
           else if a < 6 + 2 * l.queueSize then UsedEvent else Padding;
    } else {
      f := if u < 2 then UsedFlags else if u < 4 then UsedIdx
           else if u >= 4 + 8 * l.queueSize then AvailEvent
           else if (u - 4) % 8 < 4 then UsedId((u - 4) / 8) else UsedLen((u - 4) / 8);
    }
  }
}
