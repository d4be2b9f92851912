/** Fixed-width words: wrapping 16-bit arithmetic and little-endian encodings. */
module Words {

  type byte = x: int | 0 <= x < 0x100
  type u16 = x: int | 0 <= x < 0x1_0000
  type u32 = x: int | 0 <= x < 0x1_0000_0000
  type u64 = x: int | 0 <= x < 0x1_0000_0000_0000_0000

  /** The `u16` a free-running counter shows once it has counted to `x`. */
  function Wrap(x: int): u16 {
    x % 0x1_0000
  }

  /** Wrapping subtraction of two 16-bit counters is the wrapped distance of what they count. */
  lemma WrapDistance(a: int, b: int)
    ensures Wrap(Wrap(a) - Wrap(b)) == Wrap(a - b)
    ensures Wrap(Wrap(a) + b) == Wrap(a + b)
  {
    hide Wrap;
    WrapShift(a, 0 - Wrap(b));
    WrapShift(a, b);
    WrapTaken(a, b);
  }

  lemma WrapShift(a: int, b: int)
    ensures Wrap(Wrap(a) + b) == Wrap(a + b)
  {
    var t := a / 0x1_0000;
    assert a + b == Wrap(a) + b + 0x1_0000 * t;
  }

  lemma WrapTaken(a: int, b: int)
    ensures Wrap(a - Wrap(b)) == Wrap(a - b)
  {
    var t := b / 0x1_0000;
    assert a - b == a - Wrap(b) - 0x1_0000 * t;
  }

  /** `u64::checked_add`. */
  function CheckedAdd(a: u64, b: u64): Option<u64> {
    if a + b < 0x1_0000_0000_0000_0000 then Some(a + b) else None
  }

  datatype Option<+T> = None | Some(value: T)

  datatype Result<+T, +E> = Ok(value: T) | Err(error: E)

  function Min(a: int, b: int): int {
    if a <= b then a else b
  }

  // ---------------------------------------------------------------- division

  lemma NoMultipleBetween(d: int, k: int)
    requires -d < d * k < d
    ensures k == 0
  {
    assert k >= 1 ==> d * k >= d;
    assert k <= -1 ==> d * k <= -d;
  }

  lemma DivideOnce(x: int, d: int, q: int, r: int)
    requires 0 <= r < d && x == d * q + r
    ensures x % d == r && x / d == q
  {
    var q', r' := x / d, x % d;
    assert d * (q - q') == r' - r;
    NoMultipleBetween(d, q - q');
  }

  /** `a / b`, rounded up. */
  function CeilDiv(a: nat, b: nat): nat
    requires b > 0
  {
    (a + b - 1) / b
  }

  lemma CeilDivIs(a: nat, b: nat, q: nat)
    requires b > 0 && q * b >= a && (q > 0 ==> (q - 1) * b < a)
    ensures CeilDiv(a, b) == q
  {
    var r := a + b - 1 - q * b;
    if q > 0 {
      assert (q - 1) * b == q * b - b;
    }
    assert a + b - 1 == b * q + r;
    DivideOnce(a + b - 1, b, q, r);
  }

  // ---------------------------------------------------------------- little-endian encoding

  function Pow256(n: nat): (p: nat)
    ensures p > 0
  {
    if n == 0 then 1 else 256 * Pow256(n - 1)
  }

  lemma Widths()
    ensures Pow256(0) == 1
    ensures Pow256(1) == 0x100
    ensures Pow256(2) == 0x1_0000
    ensures Pow256(4) == 0x1_0000_0000
    ensures Pow256(8) == 0x1_0000_0000_0000_0000
  {
    assert Pow256(4) == 256 * 256 * Pow256(2);
    assert Pow256(6) == 256 * 256 * Pow256(4);
    assert Pow256(8) == 256 * 256 * Pow256(6);
  }

  function ToLE(v: nat, n: nat): (s: seq<byte>)
    ensures |s| == n
  {
    if n == 0 then [] else [v % 256] + ToLE(v / 256, n - 1)
  }

  function FromLE(s: seq<byte>): nat {
    if s == [] then 0 else s[0] + 256 * FromLE(s[1..])
  }

  lemma {:induction false} FromLEBound(s: seq<byte>)
    ensures FromLE(s) < Pow256(|s|)
  {
    if s != [] {
      FromLEBound(s[1..]);
    }
  }

  lemma {:induction false} DecodeEncode(v: nat, n: nat)
    requires v < Pow256(n)
    ensures FromLE(ToLE(v, n)) == v
  {
    if n != 0 {
      DecodeEncode(v / 256, n - 1);
      assert ToLE(v, n)[1..] == ToLE(v / 256, n - 1);
    }
  }

  lemma {:induction false} EncodeDecode(s: seq<byte>)
    ensures ToLE(FromLE(s), |s|) == s
  {
    if s != [] {
      EncodeDecode(s[1..]);
      assert FromLE(s) % 256 == s[0] && FromLE(s) / 256 == FromLE(s[1..]);
    }
  }

  /** The byte of weight 256^i is the `i`-th. */
  lemma {:induction false} EncodedByte(v: nat, n: nat, i: nat)
    requires i < n
    ensures ToLE(v, n)[i] == v / Pow256(i) % 256
  {
    if i > 0 {
      EncodedByte(v / 256, n - 1, i - 1);
      DivideTwice(v, Pow256(i - 1));
    }
  }

  lemma DivideTwice(v: nat, b: nat)
    requires b > 0
    ensures v / 256 / b == v / (256 * b)
  {
    var x := v / 256;
    var q, r := x / b, x % b;
    assert x == b * q + r;
    assert 256 * (b * q) == 256 * b * q;
    DivideOnce(v, 256 * b, q, 256 * r + v % 256);
  }

  lemma EncodedBytes(v: nat, n: nat)
    ensures forall i: nat | i < n :: ToLE(v, n)[i] == v / Pow256(i) % 256
  {
    hide ToLE;
    forall i: nat | i < n ensures ToLE(v, n)[i] == v / Pow256(i) % 256 {
      EncodedByte(v, n, i);
    }
  }

  lemma DecodedBytes(s: seq<byte>)
    ensures forall i: nat | i < |s| :: FromLE(s) / Pow256(i) % 256 == s[i]
  {
    hide ToLE, FromLE;
    EncodeDecode(s);
    EncodedBytes(FromLE(s), |s|);
  }
}
