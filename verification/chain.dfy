/** The walk over one descriptor chain (toy-virtq-raw/src/device.rs:17-188). The chain is a linked list the
    other side wrote, so everything here is stated for a table of arbitrary contents. */
module ChainWalk {
  import opened Words
  import opened Memory
  import opened VirtqLayout
  import opened Rings

  datatype ChainError =
    | IndexOutOfRange(index: u16, queueSize: nat)
    | TooLong(limit: nat)
    | TooManyBytes
    | Indirect
    | ReadableAfterWritable
    | Mem(error: MemError)

  /** A descriptor table; an entry that lies outside the region reads as an error. */
  type Table = t: seq<Result<Descriptor, MemError>> | |t| < 0x1_0000

  function ReadDescriptor(m: seq<byte>, at: nat): Result<Descriptor, MemError>
    requires at + 16 < 0x1_0000_0000_0000_0000
  {
    Widths();
    match Load(m, at, 8) case Err(e) => Err(e) case Ok(addr) =>
    match Load(m, at + 8, 4) case Err(e) => Err(e) case Ok(len) =>
    match Load(m, at + 12, 2) case Err(e) => Err(e) case Ok(flags) =>
    match Load(m, at + 14, 2) case Err(e) => Err(e) case Ok(next) =>
    Ok(Descriptor(addr, len, flags, next))
  }

  function TableOf(m: seq<byte>, l: Layout): (t: Table)
    requires l.Valid()
    ensures |t| == l.queueSize
  {
    seq(l.queueSize, i requires 0 <= i < l.queueSize => ReadDescriptor(m, l.At(DescAddr(i))))
  }

  /** A table all of whose entries could be read. */
  function OkTable(t: seq<Descriptor>): (r: Table)
    requires |t| < 0x1_0000
    ensures |r| == |t|
  {
    seq(|t|, i requires 0 <= i < |t| => Ok(t[i]))
  }

  /** A region that holds its rings has a readable table, and the view shows its entries. */
  lemma TableOfView(m: seq<byte>, l: Layout)
    requires l.Valid() && RingsIn(m, l)
    ensures TableOf(m, l) == OkTable(View(m, l).table)
  {
    hide ReadDescriptor, DescAt, Layout.At, AvailRingAt, UsedRingAt, Num;
    forall i | 0 <= i < l.queueSize ensures TableOf(m, l)[i] == Ok(View(m, l).table[i]) {
      DescriptorShown(m, l, i);
    }
  }

  lemma DescriptorShown(m: seq<byte>, l: Layout, i: nat)
    requires l.Valid() && RingsIn(m, l) && i < l.queueSize
    ensures l.At(DescAddr(i)) + 16 < 0x1_0000_0000_0000_0000
    ensures ReadDescriptor(m, l.At(DescAddr(i))) == Ok(DescAt(m, l, i))
  {
    hide FromLE, PowerOfTwo;
    FieldInside(l, DescNext(i));
  }

  // ---------------------------------------------------------------- the iterator

  datatype Cursor = Cursor(nextIndex: u16, ttl: u16, yieldedBytes: u32, seenWritable: bool, done: bool)

  type Item = Option<Result<Descriptor, ChainError>>

  function Start(t: Table, head: u16): Cursor {
    Cursor(head, |t|, 0, false, false)
  }

  /** One call of `next`. */
  function Advance(t: Table, c: Cursor): (Cursor, Item) {
    if c.done then (c, None)
    else if c.ttl == 0 then (c.(done := true), Some(Err(TooLong(|t|))))
    else if c.nextIndex >= |t| then (c.(done := true), Some(Err(IndexOutOfRange(c.nextIndex, |t|))))
    else match t[c.nextIndex]
      case Err(e) => (c.(done := true), Some(Err(Mem(e))))
      case Ok(d) =>
        if d.IsIndirect() then (c.(done := true), Some(Err(Indirect)))
        else if c.yieldedBytes + d.len >= 0x1_0000_0000 then (c.(done := true), Some(Err(TooManyBytes)))
        else
          var c1 := c.(yieldedBytes := c.yieldedBytes + d.len);
          if !d.IsWriteOnly() && c.seenWritable then (c1.(done := true), Some(Err(ReadableAfterWritable)))
          else
            var c2 := c1.(seenWritable := d.IsWriteOnly() || c.seenWritable);
            if d.HasNext() then (c2.(nextIndex := d.next, ttl := c.ttl - 1), Some(Ok(d)))
            else (c2.(done := true), Some(Ok(d)))
  }

  function Steps(c: Cursor): nat {
    if c.done then 0 else c.ttl + 1
  }

  /** What a caller sees that calls `next` until it yields an error or nothing. */
  datatype Walked = Walked(descs: seq<Descriptor>, error: Option<ChainError>)

  function Walk(t: Table, c: Cursor): Walked
    decreases Steps(c)
  {
    match Advance(t, c)
    case (_, None) => Walked([], None)
    case (_, Some(Err(e))) => Walked([], Some(e))
    case (c', Some(Ok(d))) =>
      var rest := Walk(t, c');
      Walked([d] + rest.descs, rest.error)
  }

  lemma AdvanceProgress(t: Table, c: Cursor)
    ensures var (c', item) := Advance(t, c);
      match item
      case None => Walk(t, c) == Walked([], None)
      case Some(Err(e)) => Walk(t, c) == Walked([], Some(e))
      case Some(Ok(d)) =>
        Steps(c') < Steps(c) && Walk(t, c) == Walked([d] + Walk(t, c').descs, Walk(t, c').error)
  {
  }

  function WalkChain(t: Table, head: u16): Walked {
    Walk(t, Start(t, head))
  }

  class ChainIter {
    const mem: SharedMem
    const layout: Layout
    var nextIndex: u16
    var ttl: u16
    var yieldedBytes: u32
    var seenWritable: bool
    var done: bool

    ghost function State(): Cursor
      reads this
    {
      Cursor(nextIndex, ttl, yieldedBytes, seenWritable, done)
    }

    constructor (mem: SharedMem, layout: Layout, head: u16)
      requires layout.Valid()
      ensures this.mem == mem && this.layout == layout
      ensures State() == Start(TableOf(mem.buf[..], layout), head)
    {
      this.mem, this.layout := mem, layout;
      nextIndex, ttl, yieldedBytes, seenWritable, done := head, layout.queueSize, 0, false, false;
    }

    method Next() returns (item: Item)
      requires mem.Valid() && layout.Valid()
      modifies this
      ensures (State(), item) == Advance(TableOf(mem.buf[..], layout), old(State()))
    {
      hide ReadDescriptor;
      if done {
        return None;
      }
      if ttl == 0 {
        done := true;
        return Some(Err(TooLong(layout.queueSize)));
      }
      var at := layout.Desc(nextIndex);
      if at.None? {
        done := true;
        return Some(Err(IndexOutOfRange(nextIndex, layout.queueSize)));
      }
      FieldInside(layout, DescAddr(nextIndex));
      var read := ReadDescriptor(mem.buf[..], at.value);
      if read.Err? {
        done := true;
        return Some(Err(Mem(read.error)));
      }
      var desc := read.value;
      if desc.IsIndirect() {
        done := true;
        return Some(Err(Indirect));
      }
      match CheckedAdd32(yieldedBytes, desc.len) {
        case Some(n) => yieldedBytes := n;
        case None =>
          done := true;
          return Some(Err(TooManyBytes));
      }
      if desc.IsWriteOnly() {
        seenWritable := true;
      } else if seenWritable {
        done := true;
        return Some(Err(ReadableAfterWritable));
      }
      if desc.HasNext() {
        nextIndex := desc.next;
        ttl := ttl - 1;
      } else {
        done := true;
      }
      return Some(Ok(desc));
    }
  }

  function CheckedAdd32(a: u32, b: u32): Option<u32> {
    if a + b < 0x1_0000_0000 then Some(a + b) else None
  }
}
