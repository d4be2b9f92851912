/** Typed access to the fields of the rings, as both halves of the queue perform it. The rings need not lie in
    the region: an access to a field that does not is refused, and nothing changes. */
module Fields {
  import opened Words
  import opened Memory
  import opened VirtqLayout
  import opened Rings

  // ---------------------------------------------------------------- on regions as values

  function LoadField(m: seq<byte>, l: Layout, f: Field): (r: Result<nat, MemError>)
    requires l.Valid() && l.Has(f)
    ensures r.Ok? ==> r.value < Pow256(l.Width(f))
    ensures RingsIn(m, l) ==> r == Ok(Num(m, l, f))
  {
    FieldInside(l, f);
    Load(m, l.At(f), l.Width(f))
  }

  function LoadShort(m: seq<byte>, l: Layout, f: Field): (r: Result<u16, MemError>)
    requires l.Valid() && l.Has(f) && l.Width(f) == 2
    ensures RingsIn(m, l) ==> r == Ok(Num(m, l, f))
  {
    Widths();
    match LoadField(m, l, f)
    case Err(e) => Err(e)
    case Ok(v) => Ok(v)
  }

  predicate Storable(l: Layout, f: Field, v: nat)
    requires l.Valid()
  {
    l.Has(f) && v < Pow256(l.Width(f))
  }

  predicate AllStorable(l: Layout, stores: seq<(Field, nat)>)
    requires l.Valid()
  {
    forall i | 0 <= i < |stores| :: Storable(l, stores[i].0, stores[i].1)
  }

  /** Stores in order, up to the first one that is refused. */
  datatype Stores = Stores(mem: seq<byte>, error: Option<MemError>)

  function StoreAll(m: seq<byte>, l: Layout, stores: seq<(Field, nat)>): (s: Stores)
    requires l.Valid() && AllStorable(l, stores)
    ensures |s.mem| == |m| && (RingsIn(m, l) ==> s.error == None)
    decreases |stores|
  {
    if stores == [] then Stores(m, None)
    else
      var (f, v) := stores[0];
      assert Storable(l, stores[0].0, stores[0].1);
      FieldInside(l, f);
      if l.At(f) + l.Width(f) > |m| then Stores(m, Some(OutOfBounds(l.At(f), l.Width(f), |m|)))
      else
        var m1 := Patch(m, l.At(f), ToLE(v, l.Width(f)));
        StoreAll(m1, l, stores[1..])
  }

  /** Stores into rings that lie in the region are all performed. */
  lemma StoreAllPuts(m: seq<byte>, l: Layout, f: Field, v: nat, rest: seq<(Field, nat)>)
    requires l.Valid() && RingsIn(m, l) && Storable(l, f, v)
    requires AllStorable(l, rest)
    ensures AllStorable(l, [(f, v)] + rest)
    ensures StoreAll(m, l, [(f, v)] + rest) == StoreAll(Put(m, l, f, v), l, rest)
  {
    hide Layout.At, Layout.Width, Layout.Has, Patch, ToLE;
    FieldInside(l, f);
    assert ([(f, v)] + rest)[1..] == rest;
  }

  /** A list of stores continues where its first part stops, unless that part was refused. */
  lemma {:induction false} StoreAllJoin(m: seq<byte>, l: Layout, a: seq<(Field, nat)>, b: seq<(Field, nat)>)
    requires l.Valid() && AllStorable(l, a) && AllStorable(l, b)
    ensures AllStorable(l, a + b)
    ensures var s := StoreAll(m, l, a);
      StoreAll(m, l, a + b) == if s.error.Some? then s else StoreAll(s.mem, l, b)
    decreases |a|
  {
    if a == [] {
      assert a + b == b;
    } else {
      assert Storable(l, a[0].0, a[0].1);
      assert (a + b)[1..] == a[1..] + b;
      var (f, v) := a[0];
      FieldInside(l, f);
      hide Layout.At, Layout.Width, Layout.Has, Patch, ToLE;
      if l.At(f) + l.Width(f) <= |m| {
        StoreAllJoin(Patch(m, l.At(f), ToLE(v, l.Width(f))), l, a[1..], b);
      }
    }
  }

  lemma StoreNone(m: seq<byte>, l: Layout)
    requires l.Valid()
    ensures StoreAll(m, l, []) == Stores(m, None)
  {
  }

  // ---------------------------------------------------------------- on the shared region

  function ReadField(mem: SharedMem, l: Layout, f: Field): (r: Result<nat, MemError>)
    requires mem.Valid() && l.Valid() && l.Has(f)
    reads mem.buf
    ensures r == LoadField(mem.buf[..], l, f)
  {
    hide Layout.At, Layout.Width, Layout.Has;
    FieldInside(l, f);
    mem.ReadWord(l.At(f), l.Width(f))
  }

  /** `read_u16` of a two-byte field. */
  function ReadShort(mem: SharedMem, l: Layout, f: Field): (r: Result<u16, MemError>)
    requires mem.Valid() && l.Valid() && l.Has(f) && l.Width(f) == 2
    reads mem.buf
    ensures r == LoadShort(mem.buf[..], l, f)
  {
    hide Layout.At, LoadField;
    Widths();
    match ReadField(mem, l, f)
    case Err(e) => Err(e)
    case Ok(v) => Ok(v)
  }

  method WriteField(mem: SharedMem, l: Layout, f: Field, v: nat) returns (r: Result<(), MemError>)
    requires mem.Valid() && l.Valid() && Storable(l, f, v)
    modifies mem.buf
    ensures StoreAll(old(mem.buf[..]), l, [(f, v)])
      == Stores(mem.buf[..], match r case Ok(_) => None case Err(e) => Some(e))
    ensures old(RingsIn(mem.buf[..], l)) ==> r.Ok? && mem.buf[..] == Put(old(mem.buf[..]), l, f, v)
  {
    hide Layout.At, Layout.Width, Layout.Has, ToLE;
    FieldInside(l, f);
    r := mem.WriteWord(l.At(f), v, l.Width(f));
    assert [(f, v)][1..] == [];
  }
}
