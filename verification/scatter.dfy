/** Gathering the request and scattering the response, exactly. */
module ScatterGather {
  import opened Words
  import opened Memory
  import opened VirtqLayout
  import opened Rings
  import opened ChainWalk
  import opened DeviceSpec
  import opened DeviceFacts

  ghost predicate InRegion(m: seq<byte>, bs: Buffers) {
    forall b | b in bs :: b.0 + b.1 <= |m|
  }

  /** The two buffers share no byte. */
  predicate ApartBuffers(b: (u64, u32), c: (u64, u32)) {
    b.1 == 0 || c.1 == 0 || Apart(b.0, b.1, c.0, c.1)
  }

  /** No two of the buffers share a byte. */
  ghost predicate Separate(bs: Buffers) {
    forall i, j | 0 <= i < j < |bs| :: ApartBuffers(bs[i], bs[j])
  }

  /** The contents of the buffers, in order. */
  ghost function Contents(m: seq<byte>, bs: Buffers): (s: seq<byte>)
    requires InRegion(m, bs)
    ensures |s| == Length(bs)
  {
    if bs == [] then [] else m[bs[0].0..bs[0].0 + bs[0].1] + Contents(m, bs[1..])
  }

  /** The buffers that lie in the region, and those that do not, each in order. */
  ghost function Inside(m: seq<byte>, bs: Buffers): (r: Buffers)
    ensures InRegion(m, r)
  {
    if bs == [] then []
    else (if bs[0].0 + bs[0].1 <= |m| then [bs[0]] else []) + Inside(m, bs[1..])
  }

  ghost function Beyond(m: seq<byte>, bs: Buffers): Buffers {
    if bs == [] then []
    else (if bs[0].0 + bs[0].1 <= |m| then [] else [bs[0]]) + Beyond(m, bs[1..])
  }

  lemma {:induction false} InsideSame(m: seq<byte>, m': seq<byte>, bs: Buffers)
    requires |m'| == |m|
    ensures Inside(m', bs) == Inside(m, bs)
  {
    if bs != [] {
      InsideSame(m, m', bs[1..]);
    }
  }

  /** Whatever the addresses are, the request is the contents of the buffers inside the region, joined in
      order, and every other buffer is reported once. */
  lemma {:induction false} GatherSplits(m: seq<byte>, bs: Buffers)
    ensures var g, beyond := Gather(m, bs), Beyond(m, bs);
      && g.request == Contents(m, Inside(m, bs))
      && |g.failures| == |beyond|
      && forall i | 0 <= i < |beyond| :: g.failures[i] == OutOfBounds(beyond[i].0, beyond[i].1, |m|)
  {
    if bs != [] {
      GatherSplits(m, bs[1..]);
      var inside := Inside(m, bs[1..]);
      if bs[0].0 + bs[0].1 <= |m| {
        assert Inside(m, bs) == [bs[0]] + inside && Beyond(m, bs) == Beyond(m, bs[1..]);
        hide Inside, Beyond, InRegion;
        assert ([bs[0]] + inside)[1..] == inside;
      } else {
        assert Inside(m, bs) == inside && Beyond(m, bs) == [bs[0]] + Beyond(m, bs[1..]);
        hide Inside, Beyond, InRegion, Contents;
      }
    }
  }

  lemma {:induction false} ContentsKept(m: seq<byte>, m': seq<byte>, bs: Buffers)
    requires |m'| == |m| && InRegion(m, bs)
    requires forall b, p: nat | b in bs && InBuffer(b, p) :: m'[p] == m[p]
    ensures Contents(m', bs) == Contents(m, bs)
  {
    if bs != [] {
      var b := bs[0];
      assert forall p: nat | InBuffer(b, p) :: m'[p] == m[p];
      assert m'[b.0..b.0 + b.1] == m[b.0..b.0 + b.1];
      ContentsKept(m, m', bs[1..]);
    }
  }

  // ---------------------------------------------------------------- scattering, for any buffers

  /** The region ends before the share of a response of `n` bytes that falls to the `i`-th buffer. */
  ghost predicate Refuses(bs: Buffers, size: nat, n: nat, i: nat)
    requires i < |bs|
  {
    var before := Length(bs[..i]);
    before < n && bs[i].0 + Min(bs[i].1, n - before) > size
  }

  /** How storing a response of `n` bytes ends in a region of `size` bytes: with the first buffer that
      refuses its share, everything before it being full; or when the response or the room is used up. */
  ghost predicate Ends(bs: Buffers, size: nat, n: nat, written: nat, failure: Option<MemError>) {
    match failure
    case None => (forall i | 0 <= i < |bs| :: !Refuses(bs, size, n, i)) && written == Min(n, Length(bs))
    case Some(e) => exists i :: 0 <= i < |bs| && EndsAt(bs, size, n, i, written, e)
  }

  ghost predicate EndsAt(bs: Buffers, size: nat, n: nat, i: nat, written: nat, e: MemError)
    requires i < |bs|
  {
    && Refuses(bs, size, n, i) && (forall j | 0 <= j < i :: !Refuses(bs, size, n, j))
    && written == Length(bs[..i])
    && e == OutOfBounds(bs[i].0, Min(bs[i].1, n - written), size)
  }

  lemma LengthFirst(bs: Buffers, i: nat)
    requires i < |bs|
    ensures Length(bs[..i + 1]) == bs[0].1 + Length(bs[1..][..i])
  {
    assert bs[..i + 1][1..] == bs[1..][..i];
  }

  /** Past a first buffer that took its share, the others refuse what is left as before. */
  lemma RefusesShift(bs: Buffers, size: nat, n: nat, i: nat)
    requires i + 1 < |bs| && n > 0
    ensures Refuses(bs, size, n, i + 1) <==> Refuses(bs[1..], size, n - Min(bs[0].1, n), i)
  {
    hide Length;
    LengthFirst(bs, i);
  }

  /** Whatever the addresses are: storing fails if and only if some buffer refuses its share, and what has
      been stored by then is what the buffers before it hold; otherwise everything that fits is stored. */
  lemma {:induction false} ScatterEnds(m: seq<byte>, bs: Buffers, response: seq<byte>)
    ensures var s := Scatter(m, bs, response); Ends(bs, |m|, |response|, s.written, s.failure)
    decreases |bs|
  {
    var s, n := Scatter(m, bs, response), |response|;
    if bs != [] && response != [] {
      var k := Min(bs[0].1, n);
      assert bs[..0] == [];
      assert Refuses(bs, |m|, n, 0) <==> bs[0].0 + k > |m|;
      if bs[0].0 + k > |m| {
        assert EndsAt(bs, |m|, n, 0, s.written, s.failure.value);
      } else {
        ScatterEnds(Patch(m, bs[0].0, response[..k]), bs[1..], response[k..]);
        var rest := Scatter(Patch(m, bs[0].0, response[..k]), bs[1..], response[k..]);
        hide Scatter, Patch;
        EndsFirst(bs, |m|, n, rest.written, rest.failure);
      }
    }
  }

  lemma EndsFirst(bs: Buffers, size: nat, n: nat, written: nat, failure: Option<MemError>)
    requires bs != [] && n > 0 && !Refuses(bs, size, n, 0)
    requires Ends(bs[1..], size, n - Min(bs[0].1, n), written, failure)
    ensures Ends(bs, size, n, Min(bs[0].1, n) + written, failure)
  {
    hide Refuses;
    var k := Min(bs[0].1, n);
    forall j | 0 < j < |bs| ensures Refuses(bs, size, n, j) <==> Refuses(bs[1..], size, n - k, j - 1) {
      RefusesShift(bs, size, n, j - 1);
    }
    if failure.Some? {
      var i :| 0 <= i < |bs| - 1 && EndsAt(bs[1..], size, n - k, i, written, failure.value);
      LengthFirst(bs, i);
      RefusesLeft(bs[1..], size, n - k, i);
      forall j | 0 <= j < i + 1 ensures !Refuses(bs, size, n, j) {
        assert j > 0 ==> !Refuses(bs[1..], size, n - k, j - 1);
      }
      assert EndsAt(bs, size, n, i + 1, k + written, failure.value);
    } else {
      forall j | 0 <= j < |bs| ensures !Refuses(bs, size, n, j) {
        assert j > 0 ==> !Refuses(bs[1..], size, n - k, j - 1);
      }
    }
  }

  lemma RefusesLeft(bs: Buffers, size: nat, n: nat, i: nat)
    requires i < |bs| && Refuses(bs, size, n, i)
    ensures n > 0 && Length(bs[..i]) < n
  {
  }

  /** There is one way to end. */
  lemma EndsOnce(bs: Buffers, size: nat, n: nat, w1: nat, f1: Option<MemError>, w2: nat, f2: Option<MemError>)
    requires Ends(bs, size, n, w1, f1) && Ends(bs, size, n, w2, f2)
    ensures w1 == w2 && f1 == f2
  {
    hide Refuses;
    if f1.Some? && f2.Some? {
      var i :| 0 <= i < |bs| && EndsAt(bs, size, n, i, w1, f1.value);
      var j :| 0 <= j < |bs| && EndsAt(bs, size, n, j, w2, f2.value);
      assert i == j;
    }
  }

  /** The address of the `c`-th byte of the buffers in order. */
  ghost function Place(bs: Buffers, c: nat): nat
    requires c < Length(bs)
  {
    if c < bs[0].1 then bs[0].0 + c else Place(bs[1..], c - bs[0].1)
  }

  /** The last of the first `n` bytes of a response whose place is `p`. */
  ghost predicate LastAt(bs: Buffers, n: nat, p: nat, c: nat)
    requires n <= Length(bs)
  {
    c < n && Place(bs, c) == p && forall d | c < d < n :: Place(bs, d) != p
  }

  ghost predicate NoneAt(bs: Buffers, n: nat, p: nat)
    requires n <= Length(bs)
  {
    forall c | 0 <= c < n :: Place(bs, c) != p
  }

  /** Every stored byte of the response is at its place in the buffers, also where buffers overlap and later
      bytes replace earlier ones, and no other byte changes. */
  lemma {:induction false} ScatterPlaces(m: seq<byte>, bs: Buffers, response: seq<byte>, p: nat)
    requires p < |m|
    ensures var s := Scatter(m, bs, response);
      && (NoneAt(bs, s.written, p) ==> s.mem[p] == m[p])
      && (forall c: nat | c < s.written && LastAt(bs, s.written, p, c) :: s.mem[p] == response[c])
    decreases |bs|
  {
    var s := Scatter(m, bs, response);
    if bs != [] && response != [] {
      var k := Min(bs[0].1, |response|);
      if bs[0].0 + k <= |m| {
        var m1 := Patch(m, bs[0].0, response[..k]);
        var rest := Scatter(m1, bs[1..], response[k..]);
        ScatterPlaces(m1, bs[1..], response[k..], p);
        hide Scatter;
        PlacesFirst(m, bs, response, p, s, rest);
      }
    }
  }

  lemma PlaceFirst(bs: Buffers, c: nat)
    requires bs != [] && c < Length(bs[1..])
    ensures bs[0].1 + c < Length(bs) && Place(bs, bs[0].1 + c) == Place(bs[1..], c)
  {
  }

  /** The places of the bytes in the first buffer, and after it. */
  lemma PlacesSplit(bs: Buffers, k: nat, w: nat)
    requires bs != [] && k <= bs[0].1 && w <= Length(bs[1..]) && (w > 0 ==> k == bs[0].1)
    ensures k + w <= Length(bs)
    ensures forall c | 0 <= c < k :: Place(bs, c) == bs[0].0 + c
    ensures forall c | k <= c < k + w :: Place(bs, c) == Place(bs[1..], c - k)
  {
    forall c | k <= c < k + w ensures Place(bs, c) == Place(bs[1..], c - k) {
      PlaceFirst(bs, c - k);
    }
  }

  /** Where no byte goes, neither buffer part puts one. */
  lemma NoneSplit(bs: Buffers, k: nat, w: nat, p: nat)
    requires bs != [] && k <= bs[0].1 && w <= Length(bs[1..]) && (w > 0 ==> k == bs[0].1)
    requires k + w <= Length(bs) && NoneAt(bs, k + w, p)
    ensures NoneAt(bs[1..], w, p) && !(bs[0].0 <= p < bs[0].0 + k)
  {
    PlacesSplit(bs, k, w);
    hide Place, Length;
    forall c | 0 <= c < w ensures Place(bs[1..], c) != p {
      assert Place(bs, c + k) != p;
    }
    PlacedInFirst(bs, k, k + w, p);
  }

  lemma PlacedInFirst(bs: Buffers, k: nat, n: nat, p: nat)
    requires bs != [] && k <= bs[0].1 && k <= n <= Length(bs)
    ensures bs[0].0 <= p < bs[0].0 + k ==> !NoneAt(bs, n, p)
  {
    if bs[0].0 <= p < bs[0].0 + k {
      assert Place(bs, p - bs[0].0) == p;
    }
  }

  lemma LastSplit(bs: Buffers, k: nat, w: nat, p: nat, c: nat)
    requires bs != [] && k <= bs[0].1 && w <= Length(bs[1..]) && (w > 0 ==> k == bs[0].1)
    requires k + w <= Length(bs) && LastAt(bs, k + w, p, c)
    ensures if c < k then p == bs[0].0 + c && NoneAt(bs[1..], w, p) else LastAt(bs[1..], w, p, c - k)
  {
    PlacesSplit(bs, k, w);
    hide Place, Length;
    forall d | 0 <= d < w && c < k + d ensures Place(bs[1..], d) != p {
      assert Place(bs, d + k) != p;
    }
  }

  lemma PlacesFirst(m: seq<byte>, bs: Buffers, response: seq<byte>, p: nat, s: Scattered, rest: Scattered)
    requires bs != [] && p < |m| && bs[0].0 + Min(bs[0].1, |response|) <= |m|
    requires var k := Min(bs[0].1, |response|);
      && rest.written <= Length(bs[1..]) && rest.written <= |response| - k
      && s == rest.(written := k + rest.written) && |rest.mem| == |m|
      && (NoneAt(bs[1..], rest.written, p) ==> rest.mem[p] == Patch(m, bs[0].0, response[..k])[p])
      && (forall c: nat | c < rest.written && LastAt(bs[1..], rest.written, p, c) :: rest.mem[p] == response[k..][c])
    ensures s.written <= Length(bs)
    ensures NoneAt(bs, s.written, p) ==> s.mem[p] == m[p]
    ensures forall c: nat | c < s.written && LastAt(bs, s.written, p, c) :: s.mem[p] == response[c]
  {
    var k, w := Min(bs[0].1, |response|), rest.written;
    PlacesSplit(bs, k, w);
    hide Place, Length, NoneAt, LastAt, Min;
    if NoneAt(bs, s.written, p) {
      NoneSplit(bs, k, w, p);
    }
    forall c: nat | c < s.written && LastAt(bs, s.written, p, c) ensures s.mem[p] == response[c] {
      LastSplit(bs, k, w, p, c);
      if c >= k {
        assert response[k..][c - k] == response[c];
      }
    }
  }

  // ---------------------------------------------------------------- scattering over separate buffers

  /** The buffers read in order hold the response, cut where they are full, followed by what they held
      before; the reported length is what was stored. */
  ghost predicate Exact(m: seq<byte>, bs: Buffers, response: seq<byte>)
    requires InRegion(m, bs)
  {
    var s, n := Scatter(m, bs, response), Min(|response|, Length(bs));
    && s.written == n && s.failure == None
    && Contents(s.mem, bs) == response[..n] + Contents(m, bs)[n..]
  }

  /** Scattering is exact when the buffers lie in the region and do not overlap. */
  lemma {:induction false} ScatterExact(m: seq<byte>, bs: Buffers, response: seq<byte>)
    requires InRegion(m, bs) && Separate(bs)
    ensures Exact(m, bs, response)
    decreases |bs|
  {
    if bs != [] && response != [] {
      var b, tail := bs[0], bs[1..];
      var k := Min(b.1, |response|);
      SeparateTail(bs);
      assert b in bs && bs == [b] + tail;
      hide Separate, ApartBuffers, Patch, Exact;
      ScatterExact(Patch(m, b.0, response[..k]), tail, response[k..]);
      ScatterCons(m, b, tail, response);
    }
  }

  lemma ScatterCons(m: seq<byte>, b: (u64, u32), tail: Buffers, response: seq<byte>)
    requires b.0 + b.1 <= |m| && InRegion(m, tail) && forall c | c in tail :: ApartBuffers(b, c)
    requires response != []
    requires var k := Min(b.1, |response|); Exact(Patch(m, b.0, response[..k]), tail, response[k..])
    ensures Exact(m, [b] + tail, response)
  {
    hide Scatter, Contents, Length, ApartBuffers, Patch;
    var k := Min(b.1, |response|);
    var s := Scatter(m, [b] + tail, response);
    ScatterFirst(m, b, tail, response);
    ContentsCons(m, b, tail);
    ContentsCons(s.mem, b, tail);
    PatchOutside(m, b, response[..k], tail);
    FirstBuffer(m, b, tail, response);
    var cut := Min(|response| - k, Length(tail));
    CutsJoin(response, m[b.0..b.0 + b.1], Contents(m, tail), k, cut,
             s.mem[b.0..b.0 + b.1], Contents(s.mem, tail));
  }

  /** Two buffers that hold their shares of the response hold the response together. */
  lemma CutsJoin(response: seq<byte>, a: seq<byte>, rest: seq<byte>, k: nat, cut: nat, a': seq<byte>, rest': seq<byte>)
    requires k == Min(|a|, |response|) && cut == Min(|response| - k, |rest|)
    requires a' == response[..k] + a[k..] && rest' == response[k..][..cut] + rest[cut..]
    ensures var n := Min(|response|, |a| + |rest|);
      n == k + cut && a' + rest' == response[..n] + (a + rest)[n..]
  {
    JoinCut(response, a, rest);
  }

  lemma ContentsFirst(m: seq<byte>, bs: Buffers)
    requires InRegion(m, bs) && bs != []
    ensures bs[0].0 + bs[0].1 <= |m| && InRegion(m, bs[1..])
    ensures Contents(m, bs) == m[bs[0].0..bs[0].0 + bs[0].1] + Contents(m, bs[1..])
  {
    assert bs[0] in bs;
  }

  lemma ContentsCons(m: seq<byte>, b: (u64, u32), tail: Buffers)
    requires b.0 + b.1 <= |m| && InRegion(m, tail)
    ensures InRegion(m, [b] + tail) && Contents(m, [b] + tail) == m[b.0..b.0 + b.1] + Contents(m, tail)
  {
    hide Contents, InRegion;
    InRegionCons(m, b, tail);
    FirstAndRest(b, tail);
    ContentsFirst(m, [b] + tail);
  }

  lemma InRegionCons(m: seq<byte>, b: (u64, u32), tail: Buffers)
    requires b.0 + b.1 <= |m| && InRegion(m, tail)
    ensures InRegion(m, [b] + tail)
  {
    assert forall c | c in [b] + tail :: c == b || c in tail;
  }

  lemma FirstAndRest(b: (u64, u32), tail: Buffers)
    ensures ([b] + tail)[0] == b && ([b] + tail)[1..] == tail
  {
  }

  lemma ContentsOfOne(m: seq<byte>, b: (u64, u32))
    requires b.0 + b.1 <= |m|
    ensures InRegion(m, [b]) && Contents(m, [b]) == m[b.0..b.0 + b.1] && Contents(m, []) == []
  {
    hide Contents;
    NoContents(m);
    assert [b] + [] == [b];
    ContentsCons(m, b, []);
    NothingAfter(m[b.0..b.0 + b.1]);
  }

  lemma NoContents(m: seq<byte>)
    ensures InRegion(m, []) && Contents(m, []) == []
  {
  }

  lemma NothingAfter(x: seq<byte>)
    ensures x + [] == x
  {
  }

  lemma SeparateTail(bs: Buffers)
    requires Separate(bs) && bs != []
    ensures Separate(bs[1..]) && forall c | c in bs[1..] :: ApartBuffers(bs[0], c)
  {
  }

  lemma PatchOutside(m: seq<byte>, b: (u64, u32), data: seq<byte>, bs: Buffers)
    requires b.0 + |data| <= |m| && |data| <= b.1 && InRegion(m, bs)
    requires forall c | c in bs :: ApartBuffers(b, c)
    ensures Contents(Patch(m, b.0, data), bs) == Contents(m, bs)
  {
    ContentsKept(m, Patch(m, b.0, data), bs);
  }

  lemma JoinCut(response: seq<byte>, a: seq<byte>, rest: seq<byte>)
    ensures var k, n := Min(|a|, |response|), Min(|response|, |a| + |rest|);
      var n' := Min(|response| - k, |rest|);
      (response[..k] + a[k..]) + (response[k..][..n'] + rest[n'..]) == response[..n] + (a + rest)[n..]
  {
  }

  lemma FirstBuffer(m: seq<byte>, b: (u64, u32), tail: Buffers, response: seq<byte>)
    requires b.0 + b.1 <= |m| && forall c | c in tail :: ApartBuffers(b, c)
    ensures var k := Min(b.1, |response|);
      var m' := Scatter(Patch(m, b.0, response[..k]), tail, response[k..]).mem;
      m'[b.0..b.0 + b.1] == response[..k] + m[b.0..b.0 + b.1][k..]
  {
    hide Patch, Scatter, ApartBuffers;
    var k := Min(b.1, |response|);
    var m1 := Patch(m, b.0, response[..k]);
    var m' := Scatter(m1, tail, response[k..]).mem;
    forall p | b.0 <= p < b.0 + b.1 ensures m'[p] == m1[p] {
      NotInThese(b, tail, p);
      ScatterTouches(m1, tail, response[k..], p);
    }
    SameStretch(m1, m', b.0, b.0 + b.1);
    PatchedStretch(m, b.0, b.1, response[..k]);
  }

  lemma NotInThese(b: (u64, u32), tail: Buffers, p: nat)
    requires InBuffer(b, p) && forall c | c in tail :: ApartBuffers(b, c)
    ensures forall c | c in tail :: !InBuffer(c, p)
  {
  }

  lemma SameStretch(m: seq<byte>, m': seq<byte>, from: nat, to: nat)
    requires from <= to <= |m| == |m'| && forall p | from <= p < to :: m'[p] == m[p]
    ensures m'[from..to] == m[from..to]
  {
  }

  lemma PatchedStretch(m: seq<byte>, a: nat, len: nat, data: seq<byte>)
    requires |data| <= len && a + len <= |m|
    ensures Patch(m, a, data)[a..a + len] == data + m[a..a + len][|data|..]
  {
    var r, old' := Patch(m, a, data), m[a..a + len];
    var want := data + old'[|data|..];
    forall i | 0 <= i < len ensures r[a..a + len][i] == want[i] {
      assert r[a..a + len][i] == r[a + i];
      if i < |data| {
        assert r[a + i] == data[i];
      } else {
        assert r[a + i] == m[a + i] == old'[i] == old'[|data|..][i - |data|];
      }
    }
  }

  // ---------------------------------------------------------------- one served chain

  /** What the device asks `work` about a chain with these readable buffers. */
  ghost function RequestIn(m: seq<byte>, readable: Buffers): seq<byte> {
    Contents(m, Inside(m, readable))
  }

  /** `m'` is `m` with the first `n` bytes of the response at their places. */
  ghost predicate Placed(m: seq<byte>, m': seq<byte>, bs: Buffers, response: seq<byte>, n: nat)
    requires n <= |response| && n <= Length(bs)
  {
    && |m'| == |m|
    && (forall p: nat | p < |m| && NoneAt(bs, n, p) :: m'[p] == m[p])
    && (forall p: nat, c: nat | p < |m| && LastAt(bs, n, p, c) :: m'[p] == response[c])
  }

  lemma ScatterPlaced(m: seq<byte>, bs: Buffers, response: seq<byte>)
    ensures var s := Scatter(m, bs, response); Placed(m, s.mem, bs, response, s.written)
  {
    var s := Scatter(m, bs, response);
    hide Scatter, LastAt, NoneAt, Length;
    forall p: nat | p < |m|
      ensures NoneAt(bs, s.written, p) ==> s.mem[p] == m[p]
      ensures forall c: nat | LastAt(bs, s.written, p, c) :: c < |response| && s.mem[p] == response[c]
    {
      ScatterPlaces(m, bs, response, p);
      forall c: nat | LastAt(bs, s.written, p, c) ensures c < s.written {
        LastBelow(bs, s.written, p, c);
      }
    }
  }

  lemma LastBelow(bs: Buffers, n: nat, p: nat, c: nat)
    requires n <= Length(bs) && LastAt(bs, n, p, c)
    ensures c < n
  {
  }

  /** The complaints about the readable buffers that do not lie in the region. */
  ghost function Complaints(m: seq<byte>, readable: Buffers): (r: seq<MemError>)
    ensures |r| == |Beyond(m, readable)|
  {
    var beyond := Beyond(m, readable);
    seq(|beyond|, i requires 0 <= i < |beyond| => OutOfBounds(beyond[i].0, beyond[i].1, |m|))
  }

  /** Serving an accepted chain, whatever its buffers are: `work` sees the readable ones inside the region
      joined in order; its answer goes to the writable ones in order until it is used up or one of them
      refuses; the completion reports exactly the bytes stored, and no other byte changes. One complaint is
      filed per readable buffer outside the region, and one more if and only if a writable one refuses. */
  lemma ServeExact(m: seq<byte>, t: Table, head: u16, work: Work, requests: seq<seq<byte>>, stats: ProcessStats)
    requires WalkChain(t, head).error == None
    ensures var ds := WalkChain(t, head).descs;
      var request, s := RequestIn(m, Readable(ds)), Serve(m, t, head, work, requests, stats);
      var response := work(requests + [request]);
      && s.requests == requests + [request]
      && s.len <= |response| && s.len <= Length(Writable(ds))
      && Placed(m, s.mem, Writable(ds), response, s.len)
      && (exists failure: Option<MemError> ::
            && Ends(Writable(ds), |m|, |response|, s.len, failure)
            && s.stats == ProcessStats(
                 stats.chains + 1, stats.descriptors + |ds|, stats.bytesRead + |request|, stats.bytesWritten + s.len,
                 stats.rejected + Rejections(head, Complaints(m, Readable(ds)))
                   + (if failure.Some? then [(head, Buffer(failure.value))] else [])))
  {
    hide WalkChain, Scatter, Contents, Gather, Ends, Placed, Length, Inside, Beyond, Readable, Writable;
    var ds := WalkChain(t, head).descs;
    GatherSplits(m, Readable(ds));
    assert Gather(m, Readable(ds)).failures == Complaints(m, Readable(ds));
    var response := work(requests + [RequestIn(m, Readable(ds))]);
    ScatterEnds(m, Writable(ds), response);
    ScatterPlaced(m, Writable(ds), response);
  }

  /** Buffers inside the region refuse nothing. */
  lemma InRegionEnds(m: seq<byte>, bs: Buffers, n: nat, written: nat, failure: Option<MemError>)
    requires InRegion(m, bs) && Ends(bs, |m|, n, written, failure)
    ensures failure == None && written == Min(n, Length(bs))
  {
    hide Length;
    forall i | 0 <= i < |bs| ensures !Refuses(bs, |m|, n, i) {
      assert bs[i] in bs;
    }
  }

  lemma {:induction false} AllInside(m: seq<byte>, bs: Buffers)
    requires InRegion(m, bs)
    ensures Inside(m, bs) == bs && Beyond(m, bs) == []
  {
    if bs != [] {
      assert bs[0] in bs;
      AllInside(m, bs[1..]);
    }
  }

  lemma {:induction false} AllBeyond(m: seq<byte>, bs: Buffers)
    requires forall b | b in bs :: b.0 + b.1 > |m|
    ensures Inside(m, bs) == [] && Beyond(m, bs) == bs
  {
    if bs != [] {
      assert bs[0] in bs;
      AllBeyond(m, bs[1..]);
    }
  }

  /** When the writable buffers lie in the region and share no byte, they then hold the answer, cut where they
      are full, followed by what they held before. */
  lemma ServeInRegion(m: seq<byte>, t: Table, head: u16, work: Work, requests: seq<seq<byte>>, stats: ProcessStats)
    requires WalkChain(t, head).error == None
    requires var ds := WalkChain(t, head).descs; InRegion(m, Writable(ds)) && Separate(Writable(ds))
    ensures var ds := WalkChain(t, head).descs;
      var response := work(requests + [RequestIn(m, Readable(ds))]);
      var s := Serve(m, t, head, work, requests, stats);
      && s.len == Min(|response|, Length(Writable(ds)))
      && Contents(s.mem, Writable(ds)) == response[..s.len] + Contents(m, Writable(ds))[s.len..]
  {
    hide WalkChain, Scatter, Contents, Gather, Separate, Length, Inside, Readable, Writable;
    var ds := WalkChain(t, head).descs;
    GatherSplits(m, Readable(ds));
    ScatterExact(m, Writable(ds), work(requests + [RequestIn(m, Readable(ds))]));
  }

  /** A malformed chain reaches neither `work` nor any buffer, is answered with length 0 and reported once. */
  lemma ServeRefused(m: seq<byte>, t: Table, head: u16, work: Work, requests: seq<seq<byte>>, stats: ProcessStats)
    requires WalkChain(t, head).error.Some?
    ensures var w, s := WalkChain(t, head), Serve(m, t, head, work, requests, stats);
      && s.mem == m && s.len == 0 && s.requests == requests
      && s.stats == ProcessStats(stats.chains + 1, stats.descriptors + |w.descs|, stats.bytesRead, stats.bytesWritten,
                                 stats.rejected + [(head, Chain(w.error.value))])
  {
    hide WalkChain;
  }

  /** The entries an accepted chain adds to `rejected`: one per readable buffer outside the region, in order and each
      with that buffer's range, and then one if and only if a writable buffer refuses its share. There is one entry for
      the chain exactly when these add up to one. */
  lemma ServeReports(m: seq<byte>, t: Table, head: u16, work: Work, requests: seq<seq<byte>>, stats: ProcessStats)
    requires WalkChain(t, head).error == None
    ensures var ds := WalkChain(t, head).descs;
      var response := work(requests + [RequestIn(m, Readable(ds))]);
      var refused := exists i :: 0 <= i < |Writable(ds)| && Refuses(Writable(ds), |m|, |response|, i);
      var s := Serve(m, t, head, work, requests, stats);
      var beyond, before := Beyond(m, Readable(ds)), |stats.rejected|;
      && |s.stats.rejected| == before + |beyond| + (if refused then 1 else 0)
      && (forall k | before <= k < |s.stats.rejected| :: s.stats.rejected[k].0 == head)
      && stats.rejected <= s.stats.rejected
      && (forall i | 0 <= i < |beyond| ::
            s.stats.rejected[before + i] == (head, Buffer(OutOfBounds(beyond[i].0, beyond[i].1, |m|))))
  {
    hide WalkChain, Contents, Length, Inside, Beyond, Readable, Writable, Serve, Placed, RequestIn, Refuses;
    ServeExact(m, t, head, work, requests, stats);
  }

  /** A chain of two readable bytes outside the region is reported twice. */
  lemma OneChainTwoReports(m: seq<byte>, work: Work)
    requires |m| < 0x1_0000_0000_0000_0000
    ensures var t: Table := [Ok(Descriptor(0xffff_ffff_ffff_ffff, 1, F_NEXT, 1)),
                             Ok(Descriptor(0xffff_ffff_ffff_ffff, 1, 0, 0))];
      |Serve(m, t, 0, work, [], ProcessStats(0, 0, 0, 0, [])).stats.rejected| == 2
  {
    var d, e := Descriptor(0xffff_ffff_ffff_ffff, 1, F_NEXT, 1), Descriptor(0xffff_ffff_ffff_ffff, 1, 0, 0);
    hide Serve, WalkChain, Readable, Writable, Beyond, Refuses;
    WalkTwo(d, e);
    SplitTwo(d, e);
    AllBeyond(m, [(d.addr, d.len), (e.addr, e.len)]);
    ServeReports(m, [Ok(d), Ok(e)], 0, work, [], ProcessStats(0, 0, 0, 0, []));
  }

  lemma WalkTwo(d: Descriptor, e: Descriptor)
    requires d.flags == F_NEXT && d.next == 1 && e.flags == 0 && d.len + e.len < 0x1_0000_0000
    ensures var t: Table := [Ok(d), Ok(e)]; WalkChain(t, 0) == Walked([d, e], None)
  {
    var t: Table := [Ok(d), Ok(e)];
    var c := Advance(t, Start(t, 0)).0;
    assert c == Cursor(1, 1, d.len, false, false);
    var c' := Advance(t, c).0;
    assert c'.done && Walk(t, c') == Walked([], None);
    assert Walk(t, c) == Walked([e], None);
  }

  lemma SplitTwo(d: Descriptor, e: Descriptor)
    requires !d.IsWriteOnly() && !e.IsWriteOnly()
    ensures Readable([d, e]) == [(d.addr, d.len), (e.addr, e.len)] && Writable([d, e]) == []
  {
    assert [d, e][1..] == [e] && [e][1..] == [];
    assert Readable([e]) == [(e.addr, e.len)] && Writable([e]) == [];
  }

  /** Whatever the region holds, completing one chain changes at most the used slot, the used index and
      bytes of that chain's device-writable buffers; of a malformed chain's buffers it changes nothing. */
  lemma ServeNextTouches(l: Layout, p: Pass, work: Work, a: nat)
    requires l.Valid() && RingsIn(p.mem, l) && a < |p.mem|
    requires var slot := Slot(p.dev.nextUsed, l.queueSize);
      forall f | f in {UsedId(slot), UsedLen(slot), UsedIdx} :: !InField(l, f, a)
    requires var w := WalkChain(TableOf(p.mem, l), Head(p.mem, l, p.dev.nextAvail, 0));
      w.error.Some? || forall b | b in Writable(w.descs) :: !InBuffer(b, a)
    ensures ServeNext(l, p, work).mem[a] == p.mem[a]
  {
    hide WalkChain, Layout.At, Layout.Width, Gather, Scatter, Head, TableOf, View;
    var t, head := TableOf(p.mem, l), Head(p.mem, l, p.dev.nextAvail, 0);
    var s := Serve(p.mem, t, head, work, p.requests, p.stats);
    var w := WalkChain(t, head);
    if w.error.None? {
      ScatterTouches(p.mem, Writable(w.descs), work(s.requests), a);
    }
    assert s.mem[a] == p.mem[a];
    PutUsedTouches(s.mem, l, p.dev.nextUsed, head, s.len, a);
  }

  ghost predicate InField(l: Layout, f: Field, a: nat)
    requires l.Valid() && l.Has(f)
  {
    l.At(f) <= a < l.At(f) + l.Width(f)
  }

  lemma PutTouches(m: seq<byte>, l: Layout, f: Field, v: nat, a: nat)
    requires l.Valid() && RingsIn(m, l) && l.Has(f) && a < |m| && !InField(l, f, a)
    ensures Put(m, l, f, v)[a] == m[a]
  {
    hide Layout.At, Layout.Width;
    FieldInside(l, f);
  }

  lemma PutUsedTouches(m: seq<byte>, l: Layout, n: u16, head: u16, len: u32, a: nat)
    requires l.Valid() && RingsIn(m, l) && a < |m|
    requires var slot := Slot(n, l.queueSize);
      forall f | f in {UsedId(slot), UsedLen(slot), UsedIdx} :: !InField(l, f, a)
    ensures PutUsed(m, l, n, head, len)[a] == m[a]
  {
    hide Put, InField;
    var slot := Slot(n, l.queueSize);
    PutTouches(m, l, UsedId(slot), head, a);
    var m1 := Put(m, l, UsedId(slot), head);
    PutTouches(m1, l, UsedLen(slot), len, a);
    PutTouches(Put(m1, l, UsedLen(slot), len), l, UsedIdx, Wrap(n + 1), a);
  }
}
