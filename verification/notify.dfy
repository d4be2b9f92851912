/** The notification-suppression predicate (toy-virtq-raw/src/layout.rs:226-253), against counters that never
    wrap. */
module Notify {
  import opened Words

  function NeedEvent(event: u16, current: u16, previous: u16): bool {
    Wrap(Wrap(current - event) - 1) < Wrap(current - previous)
  }

  /** An unbounded count `v` at which the other side asked to be told. */
  ghost predicate Due(event: u16, v: int) {
    Wrap(v) == Wrap(event + 1)
  }

  /** The decision looks back as far as the wrapped counters can show, which is the distance since the
      previous check reduced modulo 65536, and holds exactly when the counter came due within it. */
  lemma NeedEventExactly(event: u16, previous: nat, current: nat)
    requires previous <= current
    ensures NeedEvent(event, Wrap(current), Wrap(previous))
        <==> exists v: int :: current - Wrap(current - previous) < v <= current && Due(event, v)
  {
    hide Wrap, Due, NeedEvent;
    var d, k := Wrap(current - previous), Wrap(current - event - 1);
    Distances(event, previous, current);
    LastDue(current, event);
    assert k < d ==> current - d < current - k <= current;
    forall v: int | current - d < v <= current && Due(event, v) ensures k < d {
      Nearest(current, event, v);
    }
  }

  lemma Distances(event: u16, previous: nat, current: nat)
    ensures NeedEvent(event, Wrap(current), Wrap(previous)) <==> Wrap(current - event - 1) < Wrap(current - previous)
  {
    hide Wrap;
    WrapDistance(current, previous);
    WrapDistance(current, 0 - event);
    WrapDistance(current - event, -1);
  }

  lemma LastDue(current: nat, event: u16)
    ensures Due(event, current - Wrap(current - event - 1))
  {
  }

  lemma Nearest(current: nat, event: u16, v: int)
    requires current - 0x1_0000 < v <= current && Due(event, v)
    ensures Wrap(current - event - 1) == current - v
  {
    var t, u := v / 0x1_0000, (event + 1) / 0x1_0000;
    assert v - (event + 1) == 0x1_0000 * (t - u);
    assert current - event - 1 == current - v + 0x1_0000 * (t - u);
  }

  /** How often the unbounded counter came due while it went from `lo` to `hi`. */
  function Crossings(event: u16, lo: nat, hi: nat): nat
    decreases hi - lo
  {
    if hi <= lo then 0 else Crossings(event, lo, hi - 1) + (if Wrap(hi) == Wrap(event + 1) then 1 else 0)
  }

  lemma {:induction false} CrossingsWithinLap(event: u16, lo: nat, hi: nat)
    requires lo <= hi < lo + 0x1_0000
    ensures Crossings(event, lo, hi) == if exists v: int :: lo < v <= hi && Due(event, v) then 1 else 0
    decreases hi - lo
  {
    if lo < hi {
      CrossingsWithinLap(event, lo, hi - 1);
      if Due(event, hi) {
        forall v: int | lo < v < hi ensures !Due(event, v) {
          DueOncePerLap(event, v, hi);
        }
      }
    }
  }

  lemma DueOncePerLap(event: u16, v: int, u: int)
    requires v < u < v + 0x1_0000 && Due(event, u)
    ensures !Due(event, v)
  {
  }

  lemma {:induction false} CrossingsJoin(event: u16, lo: nat, mid: nat, hi: nat)
    requires lo <= mid <= hi
    ensures Crossings(event, lo, hi) == Crossings(event, lo, mid) + Crossings(event, mid, hi)
    decreases hi - mid
  {
    if mid < hi {
      CrossingsJoin(event, lo, mid, hi - 1);
    }
  }

  /** The number of notifications sent by consecutive checks at the counts `marks`. */
  function Fired(event: u16, marks: seq<nat>): nat {
    if |marks| < 2 then 0
    else
      var last := NeedEvent(event, Wrap(marks[|marks| - 1]), Wrap(marks[|marks| - 2]));
      Fired(event, marks[..|marks| - 1]) + (if last then 1 else 0)
  }

  /** Consecutive checks tile the counter: as long as each follows the previous within 65535 counts, they
      notify exactly once each time the counter comes due, however the batches fall. */
  lemma {:induction false} ChecksTile(event: u16, marks: seq<nat>)
    requires marks != []
    requires forall i | 0 <= i < |marks| - 1 :: marks[i] <= marks[i + 1] < marks[i] + 0x1_0000
    ensures marks[0] <= marks[|marks| - 1]
    ensures Fired(event, marks) == Crossings(event, marks[0], marks[|marks| - 1])
  {
    var n := |marks|;
    if n >= 2 {
      var front := marks[..n - 1];
      ChecksTile(event, front);
      var lo, hi := marks[n - 2], marks[n - 1];
      assert front[n - 2] == lo;
      CrossingsJoin(event, marks[0], lo, hi);
      hide Wrap, Due, NeedEvent;
      CrossingsWithinLap(event, lo, hi);
      NeedEventExactly(event, lo, hi);
      WrapSmall(hi - lo);
    }
  }

  /** A check that comes a whole lap of the counter after the previous one never notifies. */
  lemma FullLapIsSilent(event: u16, previous: nat)
    ensures !NeedEvent(event, Wrap(previous + 0x1_0000), Wrap(previous))
  {
    assert Wrap(previous + 0x1_0000) == Wrap(previous);
  }

  /** The request was made at count `at`, the previous check was at `previous`, the present one is at
      `current`. It notifies if and only if the previous check had not gone past the request. */
  lemma FiresUnlessPassed(at: nat, previous: nat, current: nat)
    requires at < current < at + 0x1_0000 && previous <= current < previous + 0x1_0000
    ensures NeedEvent(Wrap(at), Wrap(current), Wrap(previous)) <==> previous <= at
  {
    hide Wrap, Due, NeedEvent;
    NeedEventExactly(Wrap(at), previous, current);
    NextIsDue(at);
    WrapSmall(current - previous);
    forall v: int | previous < v <= current && Due(Wrap(at), v) ensures v == at + 1 {
      if v < at + 1 {
        DueOncePerLap(Wrap(at), v, at + 1);
      } else if v > at + 1 {
        DueOncePerLap(Wrap(at), at + 1, v);
      }
    }
  }

  lemma NextIsDue(at: nat)
    ensures Due(Wrap(at), at + 1)
  {
  }

  lemma WrapSmall(x: int)
    requires 0 <= x < 0x1_0000
    ensures Wrap(x) == x
  {
  }
}
