/** The byte region both sides of the queue share (toy-virtq-raw/src/mem.rs). */
module Memory {
  import opened Words

  datatype MemError = OutOfBounds(addr: u64, len: u64, regionLen: nat)

  // ---------------------------------------------------------------- regions as values

  /** The number stored little-endian in the `n` bytes at `a`. */
  function Word(m: seq<byte>, a: nat, n: nat): (v: nat)
    requires a + n <= |m|
    ensures v < Pow256(n)
  {
    FromLEBound(m[a..a + n]);
    FromLE(m[a..a + n])
  }

  /** The region `m` with `data` copied over the bytes at `a`. */
  function Patch(m: seq<byte>, a: nat, data: seq<byte>): (r: seq<byte>)
    requires a + |data| <= |m|
    ensures |r| == |m|
  {
    m[..a] + data + m[a + |data|..]
  }

  /** What a bounds-checked read of an `n`-byte number yields. */
  function Load(m: seq<byte>, a: u64, n: u64): Result<nat, MemError> {
    if a + n <= |m| then Ok(Word(m, a, n)) else Err(OutOfBounds(a, n, |m|))
  }

  lemma PatchReads(m: seq<byte>, a: nat, data: seq<byte>, b: nat, n: nat)
    requires a + |data| <= |m| && b + n <= |m|
    requires a + |data| <= b || b + n <= a
    ensures Patch(m, a, data)[b..b + n] == m[b..b + n]
    ensures Patch(m, a, data)[a..a + |data|] == data
  {
    var r := Patch(m, a, data);
    assert forall i | 0 <= i < |m| && (i < a || a + |data| <= i) :: r[i] == m[i];
  }

  lemma Patched(m: seq<byte>, a: nat, data: seq<byte>)
    requires a + |data| <= |m|
    ensures forall i | 0 <= i < |data| :: Patch(m, a, data)[a + i] == data[i]
    ensures forall p | 0 <= p < |m| && !(a <= p < a + |data|) :: Patch(m, a, data)[p] == m[p]
  {
  }

  /** Reading back what was just stored. */
  lemma WordOfPatch(m: seq<byte>, a: nat, v: nat, n: nat)
    requires a + n <= |m| && v < Pow256(n)
    ensures Word(Patch(m, a, ToLE(v, n)), a, n) == v
  {
    PatchReads(m, a, ToLE(v, n), 0, 0);
    DecodeEncode(v, n);
  }

  // ---------------------------------------------------------------- the region as an object

  class SharedMem {
    const buf: array<byte>

    /** A region is at most as long as the address space. */
    ghost predicate Valid() {
      buf.Length < 0x1_0000_0000_0000_0000
    }

    constructor (len: u64)
      ensures Valid() && fresh(buf) && buf.Length == len
      ensures forall i :: 0 <= i < len ==> buf[i] == 0
    {
      buf := new byte[len](_ => 0);
    }

    /** The bounds check accepts exactly the accesses that end inside the region, also when `addr + len`
        does not fit 64 bits. */
    function Range(addr: u64, len: u64): (r: Result<(nat, nat), MemError>)
      requires Valid()
      ensures r.Ok? <==> addr + len <= buf.Length
      ensures r.Ok? ==> r.value == (addr, addr + len)
      ensures r.Err? ==> r.error == OutOfBounds(addr, len, buf.Length)
    {
      match CheckedAdd(addr, len)
      case None => Err(OutOfBounds(addr, len, buf.Length))
      case Some(end) =>
        if end > buf.Length then Err(OutOfBounds(addr, len, buf.Length)) else Ok((addr, end))
    }

    function ReadSlice(addr: u64, len: u64): (r: Result<seq<byte>, MemError>)
      requires Valid()
      reads buf
      ensures r.Ok? <==> addr + len <= buf.Length
      ensures r.Ok? ==> r.value == buf[..][addr..addr + len]
      ensures r.Err? ==> r.error == OutOfBounds(addr, len, buf.Length)
    {
      match Range(addr, len)
      case Err(e) => Err(e)
      case Ok((start, end)) => Ok(buf[start..end])
    }

    /** `read_u16`, `read_u32` and `read_u64`, for `n` equal to 2, 4 and 8. */
    function ReadWord(addr: u64, n: u64): (r: Result<nat, MemError>)
      requires Valid()
      reads buf
      ensures r == Load(buf[..], addr, n)
      ensures r.Ok? <==> addr + n <= buf.Length
      ensures r.Ok? ==> r.value < Pow256(n) && forall i: nat | i < n :: r.value / Pow256(i) % 256 == buf[addr + i]
      ensures r.Err? ==> r.error == OutOfBounds(addr, n, buf.Length)
    {
      match ReadSlice(addr, n)
      case Err(e) => Err(e)
      case Ok(s) => FromLEBound(s); DecodedBytes(s); Ok(FromLE(s))
    }

    /** Either the whole slice is stored and no other byte changes, or nothing changes. */
    method WriteSlice(addr: u64, data: seq<byte>) returns (r: Result<(), MemError>)
      requires Valid() && |data| < 0x1_0000_0000_0000_0000
      modifies buf
      ensures r.Ok? <==> addr + |data| <= buf.Length
      ensures r.Ok? ==> buf[..] == Patch(old(buf[..]), addr, data)
      ensures r.Err? ==> buf[..] == old(buf[..]) && r.error == OutOfBounds(addr, |data|, buf.Length)
    {
      match Range(addr, |data|)
      case Err(e) => r := Err(e);
      case Ok((start, _)) =>
        forall i | 0 <= i < |data| {
          buf[start + i] := data[i];
        }
        r := Ok(());
    }

    /** `write_u16` and `write_u32`, for `n` equal to 2 and 4, and the 8-byte store of an address. */
    method WriteWord(addr: u64, v: nat, n: u64) returns (r: Result<(), MemError>)
      requires Valid() && v < Pow256(n)
      modifies buf
      ensures r.Ok? <==> addr + n <= buf.Length
      ensures r.Ok? ==> buf[..] == Patch(old(buf[..]), addr, ToLE(v, n))
      ensures r.Ok? ==> forall i: nat | i < n :: buf[addr + i] == v / Pow256(i) % 256
      ensures r.Ok? ==> forall p | 0 <= p < buf.Length && !(addr <= p < addr + n) :: buf[p] == old(buf[p])
      ensures r.Err? ==> buf[..] == old(buf[..]) && r.error == OutOfBounds(addr, n, buf.Length)
    {
      EncodedBytes(v, n);
      r := WriteSlice(addr, ToLE(v, n));
      if r.Ok? {
        Patched(old(buf[..]), addr, ToLE(v, n));
      }
    }
  }
}
