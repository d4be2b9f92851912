/** Demand paging with a fault handler (toy-uffd-raw/src/main.rs). The kernel is taken at its documented
    word: touching an absent page reports a fault and waits, a copy installs absent pages up to the first one
    already present and wakes the waiter, and a reset makes every page absent. */
module Pager {
  import opened Words

  const PAGE := 4096

  class Pager {
    const pages: nat
    const regionStart: nat
    const src: seq<byte>
    const batch: nat
    var present: map<nat, seq<byte>>      // the kernel's: which pages exist, and what they hold
    var faults: nat
    var writeFaults: nat
    var pagesInstalled: nat
    ghost var collisions: nat             // copies that ran into a page already present

    ghost predicate Valid()
      reads this`present
    {
      && regionStart % PAGE == 0 && |src| == pages * PAGE && batch > 0
      && forall p | p in present :: p < pages && IsSource(p, present[p])
    }

    /** The page holds, byte for byte, what the source has at its place. */
    ghost predicate IsSource(p: nat, page: seq<byte>)
      requires p < pages && |src| == pages * PAGE
    {
      |page| == PAGE && forall i | 0 <= i < PAGE :: page[i] == src[p * PAGE + i]
    }

    /** What is copied to page `p`. */
    function Image(p: nat): seq<byte>
      requires p < pages && |src| == pages * PAGE
    {
      src[p * PAGE..p * PAGE + PAGE]
    }

    function FirstByte(p: nat): byte
      requires p < pages && |src| == pages * PAGE
    {
      src[p * PAGE]
    }

    lemma ImageIsSource(p: nat)
      requires p < pages && |src| == pages * PAGE
      ensures IsSource(p, Image(p))
    {
    }

    /** Every present page holds the source's bytes. */
    lemma PresentIsSource()
      requires Valid()
      ensures forall q | q in present ::
          |present[q]| == PAGE && forall i | 0 <= i < PAGE :: present[q][i] == src[q * PAGE + i]
    {
    }

    constructor (pages: nat, regionStart: nat, src: seq<byte>, batch: nat)
      requires regionStart % PAGE == 0 && |src| == pages * PAGE && batch > 0
      ensures Valid() && present == map[] && faults == 0 && writeFaults == 0 && pagesInstalled == 0 && collisions == 0
      ensures this.pages == pages && this.src == src && this.batch == batch
    {
      this.pages, this.regionStart, this.src, this.batch := pages, regionStart, src, batch;
      present, faults, writeFaults, pagesInstalled, collisions := map[], 0, 0, 0, 0;
    }

    /** The copy the kernel performs, and what `Uffd::copy` makes of its answer: it installs the absent pages
        at the front of the run; none at all reads as zero bytes copied, and a part of the run as an error. */
    method Copy(page: nat, run: nat) returns (r: Option<nat>)
      requires Valid() && page + run <= pages
      modifies this`present, this`collisions
      ensures Valid()
      ensures forall q | q in present ::
          |present[q]| == PAGE && forall i | 0 <= i < PAGE :: present[q][i] == src[q * PAGE + i]
      ensures var k := AbsentAhead(old(present).Keys, page, run);
        && (forall q :: q in present <==> q in old(present) || page <= q < page + k)
        && r == (if k == run then Some(run * PAGE) else if k == 0 then Some(0) else None)
        && collisions == old(collisions) + (if k == run then 0 else 1)
    {
      hide AbsentAhead, IsSource, Image;
      ghost var k := AbsentAhead(present.Keys, page, run);
      var i := 0;
      while i < run && page + i !in present
        invariant 0 <= i <= k && Valid() && collisions == old(collisions)
        invariant forall q :: q in present <==> q in old(present) || page <= q < page + i
      {
        ImageIsSource(page + i);
        present := present[page + i := Image(page + i)];
        i := i + 1;
      }
      PresentIsSource();
      if i == run {
        return Some(run * PAGE);
      }
      collisions := collisions + 1;
      return if i == 0 then Some(0) else None;
    }

    /** One turn of the handler for a fault reported anywhere inside a page. It says whether the handler
        carries on; it stops when the run meets a present page further on. */
    method HandleFault(address: nat, write: bool, ghost page: nat) returns (running: bool)
      requires Valid() && page < pages
      requires regionStart + page * PAGE <= address < regionStart + page * PAGE + PAGE
      modifies this
      ensures Valid() && faults == old(faults) + 1 && writeFaults == old(writeFaults) + (if write then 1 else 0)
      ensures forall q | q in present ::
          |present[q]| == PAGE && forall i | 0 <= i < PAGE :: present[q][i] == src[q * PAGE + i]
      ensures var run := Min(batch, pages - page);
        var k := AbsentAhead(old(present).Keys, page, run);
        && (forall q :: q in present <==> q in old(present) || page <= q < page + k)
        && running == (k == run || k == 0)
        && pagesInstalled == old(pagesInstalled) + (if k == run then run else 0)
        && collisions == old(collisions) + (if k == run then 0 else 1)
    {
      hide AbsentAhead, PageOf, Whole, Image, IsSource;
      faults := faults + 1;
      if write {
        writeFaults := writeFaults + 1;
      }
      FaultingPage(regionStart, address, page);
      var first := PageOf(regionStart, address);
      var run := Min(batch, pages - first);
      var copied := Copy(first, run);
      if copied.None? {
        return false;
      }
      WholePages(run);
      pagesInstalled := pagesInstalled + Whole(copied.value);
      return true;
    }

    /** Reads the first byte of a page; an absent page faults first. The pages ahead that the handler would
        install with it must be absent too, as they are on an ascending walk. */
    method Touch(p: nat) returns (b: byte)
      requires Valid() && p < pages
      requires p !in present ==> forall q | p <= q < p + Min(batch, pages - p) :: q !in present
      modifies this
      ensures Valid() && b == FirstByte(p) && collisions == old(collisions)
      ensures p in old(present) ==>
        present == old(present) && faults == old(faults) && pagesInstalled == old(pagesInstalled)
      ensures p !in old(present) ==>
        var run := Min(batch, pages - p);
        && faults == old(faults) + 1 && pagesInstalled == old(pagesInstalled) + run
        && forall q :: q in present <==> q in old(present) || p <= q < p + run
    {
      if p !in present {
        AllAbsent(present.Keys, p, Min(batch, pages - p));
        var running := HandleFault(regionStart + p * PAGE, false, p);
      }
      b := present[p][0];
    }

    method TouchOne(p: nat) returns (b: byte)
      requires Valid() && p < pages && batch == 1
      modifies this
      ensures Valid() && b == FirstByte(p) && collisions == old(collisions)
      ensures present.Keys == old(present).Keys + {p}
      ensures faults == old(faults) + (if p in old(present) then 0 else 1)
      ensures pagesInstalled == old(pagesInstalled) + (if p in old(present) then 0 else 1)
    {
      b := Touch(p);
      assert forall q :: q in present <==> q in old(present) || q == p;
    }

    /** What was read is what belongs at the pages touched. */
    ghost predicate Shows(bytes: seq<byte>, order: seq<nat>)
      requires |src| == pages * PAGE
    {
      |bytes| == |order| && forall i | 0 <= i < |order| :: order[i] < pages && bytes[i] == FirstByte(order[i])
    }

    lemma ShowsMore(bytes: seq<byte>, order: seq<nat>, i: nat, b: byte)
      requires |src| == pages * PAGE && i < |order| && order[i] < pages && b == FirstByte(order[i])
      requires Shows(bytes, order[..i])
      ensures Shows(bytes + [b], order[..i + 1])
    {
    }

    method Reset()
      requires Valid()
      modifies this`present
      ensures Valid() && present == map[]
    {
      present := map[];
    }

    /** An ascending walk of a region just reset takes one fault per batch, installs every page exactly once,
        never copies onto a present page, and reads each page's own contents. */
    method Walk() returns (bytes: seq<byte>)
      requires Valid() && present == map[]
      modifies this
      ensures Valid() && collisions == old(collisions)
      ensures faults == old(faults) + CeilDiv(pages, batch)
      ensures pagesInstalled == old(pagesInstalled) + pages
      ensures WholeWalk(bytes)
      ensures forall q | q in present ::
          |present[q]| == PAGE && forall i | 0 <= i < PAGE :: present[q][i] == src[q * PAGE + i]
    {
      hide Covered;
      bytes := [];
      ghost var front := 0;
      CoveredNext(0);
      for p := 0 to pages
        invariant Valid() && collisions == old(collisions)
        invariant faults >= old(faults) && front == Covered(faults - old(faults)) && p <= front
        invariant front > 0 ==> front - batch < pages
        invariant pagesInstalled == old(pagesInstalled) + Min(front, pages)
        invariant forall q: nat :: q in present <==> q < Min(front, pages)
        invariant |bytes| == p && forall q | 0 <= q < p :: bytes[q] == FirstByte(q)
      {
        CoveredNext(faults - old(faults));
        var b := Touch(p);
        if p == front {
          front := front + batch;
        }
        bytes := bytes + [b];
      }
      CoveredIs(faults - old(faults));
      PresentIsSource();
    }

    /** Where an ascending walk stands in the batches after `n` faults. */
    ghost function Covered(n: nat): nat {
      n * batch
    }

    lemma CoveredNext(n: nat)
      ensures Covered(n + 1) == Covered(n) + batch && Covered(0) == 0
    {
    }

    lemma CoveredIs(n: nat)
      requires batch > 0 && Covered(n) >= pages && (Covered(n) > 0 ==> Covered(n) - batch < pages)
      ensures CeilDiv(pages, batch) == n
    {
      assert n > 0 ==> (n - 1) * batch == n * batch - batch && n * batch > 0;
      CeilDivIs(pages, batch, n);
    }

    /** `rounds` times reset and walk; every round reads each page's own contents. */
    method Rounds(rounds: nat) returns (samples: seq<seq<byte>>)
      requires Valid()
      modifies this
      ensures Valid() && collisions == old(collisions)
      ensures faults == old(faults) + rounds * CeilDiv(pages, batch)
      ensures pagesInstalled == old(pagesInstalled) + rounds * pages
      ensures |samples| == rounds && forall bytes | bytes in samples :: WholeWalk(bytes)
    {
      samples := [];
      for r := 0 to rounds
        invariant Valid() && collisions == old(collisions)
        invariant faults == old(faults) + r * CeilDiv(pages, batch)
        invariant pagesInstalled == old(pagesInstalled) + r * pages
        invariant |samples| == r && forall bytes | bytes in samples :: WholeWalk(bytes)
      {
        Reset();
        var bytes := Walk();
        samples := samples + [bytes];
        Next(r, CeilDiv(pages, batch));
        Next(r, pages);
      }
    }

    /** The first byte of every page, in order. */
    ghost predicate WholeWalk(bytes: seq<byte>)
      requires |src| == pages * PAGE
    {
      |bytes| == pages && forall p | 0 <= p < pages :: bytes[p] == FirstByte(p)
    }

    /** Installing one page per fault, any sequence of touches in any order faults once for each page it
        touches that was absent, installs just those, and reads each page's own contents. */
    method TouchAll(order: seq<nat>) returns (bytes: seq<byte>)
      requires Valid() && batch == 1 && forall i | 0 <= i < |order| :: order[i] < pages
      modifies this
      ensures Valid() && collisions == old(collisions)
      ensures faults == old(faults) + NewPages(order, old(present).Keys)
      ensures pagesInstalled == old(pagesInstalled) + NewPages(order, old(present).Keys)
      ensures present.Keys == After(order, old(present).Keys)
      ensures Shows(bytes, order)
      ensures forall q | q in present ::
          |present[q]| == PAGE && forall i | 0 <= i < PAGE :: present[q][i] == src[q * PAGE + i]
    {
      assert |src| == pages * PAGE;
      bytes := [];
      assert Shows([], order[..0]);
      ghost var before := present.Keys;
      NoneYet(order, before);
      hide *;
      for i := 0 to |order|
        invariant Valid() && collisions == old(collisions)
        invariant faults == old(faults) + NewPages(order[..i], before)
        invariant pagesInstalled == old(pagesInstalled) + NewPages(order[..i], before)
        invariant present.Keys == After(order[..i], before)
        invariant Shows(bytes, order[..i])
      {
        OneMore(order, i, before);
        var b := TouchOne(order[i]);
        ShowsMore(bytes, order, i, b);
        bytes := bytes + [b];
      }
      assert order[..|order|] == order;
      PresentIsSource();
    }
  }

  /** The page of the region a faulting address lies in, once rounded down to a page boundary. */
  function PageOf(regionStart: nat, address: nat): int {
    (address - address % PAGE - regionStart) / PAGE
  }

  /** How many pages so many bytes make. */
  function Whole(bytes: nat): nat {
    bytes / PAGE
  }

  lemma FaultingPage(regionStart: nat, address: nat, page: nat)
    requires regionStart % PAGE == 0 && regionStart + page * PAGE <= address < regionStart + page * PAGE + PAGE
    ensures PageOf(regionStart, address) == page
  {
  }

  lemma WholePages(run: nat)
    ensures Whole(run * PAGE) == run && Whole(0) == 0
  {
  }

  /** How many pages at the front of the run are absent. */
  function AbsentAhead(present: set<nat>, page: nat, run: nat): (k: nat)
    ensures k <= run && (k < run ==> page + k in present)
    ensures forall q | page <= q < page + k :: q !in present
    decreases run
  {
    if run == 0 || page in present then 0 else 1 + AbsentAhead(present, page + 1, run - 1)
  }

  lemma AllAbsent(present: set<nat>, page: nat, run: nat)
    requires forall q | page <= q < page + run :: q !in present
    ensures AbsentAhead(present, page, run) == run
  {
  }

  function Pages(order: seq<nat>): set<nat> {
    set p | p in order
  }

  /** How many distinct pages of `order` are not among `before`. */
  ghost function NewPages(order: seq<nat>, before: set<nat>): nat {
    |Pages(order) - before|
  }

  ghost function After(order: seq<nat>, before: set<nat>): set<nat> {
    before + Pages(order)
  }

  lemma NoneYet(order: seq<nat>, before: set<nat>)
    ensures NewPages(order[..0], before) == 0 && After(order[..0], before) == before
  {
    assert Pages(order[..0]) == {};
  }

  lemma OneMore(order: seq<nat>, i: nat, before: set<nat>)
    requires i < |order|
    ensures After(order[..i + 1], before) == After(order[..i], before) + {order[i]}
    ensures NewPages(order[..i + 1], before)
      == NewPages(order[..i], before) + (if order[i] in After(order[..i], before) then 0 else 1)
  {
    var seen, p := Pages(order[..i]), order[i];
    assert order[..i + 1] == order[..i] + [p];
    assert Pages(order[..i + 1]) == seen + {p};
    if p in before + seen {
      assert seen + {p} - before == seen - before;
    } else {
      assert seen + {p} - before == (seen - before) + {p};
    }
  }

  lemma Next(r: nat, x: nat)
    ensures (r + 1) * x == r * x + x
  {
  }
}
