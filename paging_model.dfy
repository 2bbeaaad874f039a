/**
 * The demand-paging engine as a pure state machine.
 *
 * A State is everything one simulation object holds: the frame pool, the two
 * parallel page-table arrays and the FIFO record of load order.  The classes
 * in PageTables and PagingEngine are proved to follow these functions step by
 * step; the lemmas here state what the engine promises about them.
 */
module PagingModel {

  datatype Option<T> = None | Some(value: T)

  /** What one call of accessMemory did, in place of the text it logs. */
  datatype Outcome =
    | OutOfBounds
    | Hit(page: int, offset: int, frame: int)
    | Fault(page: int, offset: int, frame: int, victim: Option<int>)

  /**
   * frames[f] is the page number held by frame f, or None when it is empty;
   * frameNumbers and validBit are the page table, indexed by page number;
   * queue lists the resident pages, oldest load first.
   */
  datatype State = State(
    frames: seq<Option<int>>,
    frameNumbers: seq<int>,
    validBit: seq<bool>,
    queue: seq<int>)

  // ---------------------------------------------------------------------------
  // Address decomposition with Java's integer operators
  // ---------------------------------------------------------------------------

  /** Java's `/` on int for a positive divisor: the quotient truncated toward zero. */
  function JavaDiv(a: int, b: int): int
    requires b > 0
  {
    if a >= 0 then a / b else -((-a) / b)
  }

  /** Java's `%` on int for a positive divisor: the remainder takes the sign of `a`. */
  function JavaRem(a: int, b: int): int
    requires b > 0
  {
    if a >= 0 then a % b else -((-a) % b)
  }

  /**
   * Splitting a logical address gives back the address, the offset lies
   * within one page, and for a non-negative address the page number and
   * offset are the ordinary quotient and remainder; an address below the
   * process size then names one of its pages.
   */
  lemma AddressSplit(addr: int, pageSize: int, numberOfPages: int)
    requires pageSize > 0
    ensures JavaDiv(addr, pageSize) * pageSize + JavaRem(addr, pageSize) == addr
    ensures -pageSize < JavaRem(addr, pageSize) < pageSize
    ensures addr >= 0 ==>
              JavaDiv(addr, pageSize) == addr / pageSize &&
              JavaRem(addr, pageSize) == addr % pageSize &&
              0 <= JavaRem(addr, pageSize)
    ensures 0 <= JavaDiv(addr, pageSize) <==> -pageSize < addr
    ensures 0 <= addr < pageSize * numberOfPages ==> 0 <= JavaDiv(addr, pageSize) < numberOfPages
  {
    var q, r := JavaDiv(addr, pageSize), JavaRem(addr, pageSize);
    if addr >= 0 {
      assert q * pageSize + r == addr;
      if addr < pageSize * numberOfPages && q >= numberOfPages {
        assert q * pageSize >= numberOfPages * pageSize by {
          MulMonotone(numberOfPages, q, pageSize);
        }
        assert false;
      }
    } else {
      var m := -addr;
      assert (m / pageSize) * pageSize + m % pageSize == m;
      assert q * pageSize + r == addr;
      if m < pageSize {
        assert m / pageSize == 0;
      } else {
        assert m / pageSize >= 1;
      }
    }
  }

  lemma MulMonotone(a: int, b: int, c: int)
    requires a <= b && c > 0
    ensures a * c <= b * c
  {
  }

  // ---------------------------------------------------------------------------
  // The engine invariant
  // ---------------------------------------------------------------------------

  ghost predicate NoDuplicates(q: seq<int>)
  {
    forall i, j :: 0 <= i < j < |q| ==> q[i] != q[j]
  }

  /**
   * The residency invariant: the queue fits in memory, holds each resident
   * page once, and holds exactly the pages whose valid bit is set; a valid
   * page's frame really holds it, every occupied frame holds a valid page
   * whose entry points back at it, and the occupied frames are exactly the
   * first |queue| ones.
   */
  ghost predicate Inv(s: State)
  {
    |s.frameNumbers| == |s.validBit|
    && |s.queue| <= |s.frames|
    && NoDuplicates(s.queue)
    && (forall i :: 0 <= i < |s.queue| ==> 0 <= s.queue[i] < |s.validBit|)
    && (forall p :: 0 <= p < |s.validBit| ==> (s.validBit[p] <==> p in s.queue))
    && (forall p :: 0 <= p < |s.validBit| && s.validBit[p] ==>
          0 <= s.frameNumbers[p] < |s.frames| && s.frames[s.frameNumbers[p]] == Some(p))
    && (forall f :: 0 <= f < |s.frames| && s.frames[f].Some? ==>
          0 <= s.frames[f].value < |s.validBit| &&
          s.validBit[s.frames[f].value] && s.frameNumbers[s.frames[f].value] == f)
    && (forall f :: 0 <= f < |s.frames| ==> (s.frames[f].Some? <==> f < |s.queue|))
  }

  /** The pages whose valid bit is set. */
  ghost function Resident(s: State): set<int>
  {
    set p | 0 <= p < |s.validBit| && s.validBit[p]
  }

  /** A freshly constructed simulation: all frames empty, no page valid, nothing loaded. */
  function Initial(frameCount: nat, numberOfPages: nat): (s: State)
    ensures Inv(s) && Resident(s) == {}
    ensures |s.frames| == frameCount && |s.validBit| == numberOfPages
  {
    State(seq(frameCount, _ => None), seq(numberOfPages, _ => 0), seq(numberOfPages, _ => false), [])
  }

  // ---------------------------------------------------------------------------
  // Operations
  // ---------------------------------------------------------------------------

  /** loadPageIntoFrame: put the page in the frame, record it in the table, append it to the queue. */
  function Load(s: State, page: int, frame: int): State
    requires 0 <= page < |s.validBit| == |s.frameNumbers|
    requires 0 <= frame < |s.frames|
  {
    State(s.frames[frame := Some(page)], s.frameNumbers[page := frame],
          s.validBit[page := true], s.queue + [page])
  }

  /** The first half of a replacement: poll the queue head and invalidate it. */
  function EvictOldest(s: State): State
    requires |s.queue| > 0 && 0 <= s.queue[0] < |s.validBit|
  {
    s.(validBit := s.validBit[s.queue[0] := false], queue := s.queue[1..])
  }

  /**
   * handlePageFault: load the page into the next free frame while one is
   * left; otherwise evict the oldest load and reuse its frame.  The second
   * component is the evicted page, if any.
   */
  function HandleFault(s: State, page: int): (r: (State, Option<int>))
    requires Inv(s) && 0 <= page < |s.validBit| && !s.validBit[page] && |s.frames| > 0
    ensures |r.0.frames| == |s.frames| && |r.0.validBit| == |s.validBit|
    ensures Inv(r.0) && r.0.validBit[page]
  {
    if |s.queue| < |s.frames| then
      FillPreservesInv(s, page);
      (Load(s, page, |s.queue|), None)
    else
      EvictPreservesInv(s, page);
      (Load(EvictOldest(s), page, s.frameNumbers[s.queue[0]]), Some(s.queue[0]))
  }

  lemma FillPreservesInv(s: State, page: int)
    requires Inv(s) && 0 <= page < |s.validBit| && !s.validBit[page] && |s.queue| < |s.frames|
    ensures Inv(Load(s, page, |s.queue|))
  {
    var t := Load(s, page, |s.queue|);
    assert page !in s.queue;
    forall p | 0 <= p < |t.validBit| && t.validBit[p]
      ensures 0 <= t.frameNumbers[p] < |t.frames| && t.frames[t.frameNumbers[p]] == Some(p)
    {
      if p != page {
        assert s.frames[s.frameNumbers[p]].Some?;
        assert s.frameNumbers[p] != |s.queue|;
      }
    }
  }

  lemma EvictPreservesInv(s: State, page: int)
    requires Inv(s) && 0 <= page < |s.validBit| && !s.validBit[page]
    requires |s.queue| == |s.frames| > 0
    ensures Inv(Load(EvictOldest(s), page, s.frameNumbers[s.queue[0]]))
  {
    var v := s.queue[0];
    var f := s.frameNumbers[v];
    var t := Load(EvictOldest(s), page, f);
    EvictKeepsQueue(s, page);
    forall p | 0 <= p < |t.validBit| && t.validBit[p]
      ensures 0 <= t.frameNumbers[p] < |t.frames| && t.frames[t.frameNumbers[p]] == Some(p)
    {
      if p != page {
        assert s.frames[s.frameNumbers[p]] == Some(p);
        assert s.frameNumbers[p] != f;
      }
    }
    forall g | 0 <= g < |t.frames| && t.frames[g].Some?
      ensures 0 <= t.frames[g].value < |t.validBit| &&
              t.validBit[t.frames[g].value] && t.frameNumbers[t.frames[g].value] == g
    {
      if g != f {
        assert t.frames[g].value != v;
      }
    }
  }

  /** A replacement keeps the queue duplicate-free and in step with the valid bits. */
  lemma EvictKeepsQueue(s: State, page: int)
    requires Inv(s) && 0 <= page < |s.validBit| && !s.validBit[page]
    requires |s.queue| == |s.frames| > 0
    ensures var t := Load(EvictOldest(s), page, s.frameNumbers[s.queue[0]]);
            NoDuplicates(t.queue) &&
            forall p :: 0 <= p < |t.validBit| ==> (t.validBit[p] <==> p in t.queue)
  {
    var v := s.queue[0];
    var e := EvictOldest(s);
    var t := Load(e, page, s.frameNumbers[v]);
    assert page !in s.queue;
    assert v !in e.queue by {
      forall i | 0 <= i < |e.queue| ensures e.queue[i] != v {
        assert e.queue[i] == s.queue[i + 1];
      }
    }
    forall p | 0 <= p < |t.validBit| ensures t.validBit[p] <==> p in t.queue {
      if p != page && p != v {
        assert p in s.queue <==> p in e.queue by {
          assert s.queue == [v] + e.queue;
        }
      }
    }
  }

  /**
   * accessMemory of the console copy: split the address, report a hit, or
   * handle the fault and retry, which then hits.
   */
  function Access(s: State, pageSize: int, addr: int): (r: (State, Outcome))
    requires Inv(s) && pageSize > 0 && |s.frames| > 0
    requires 0 <= JavaDiv(addr, pageSize) < |s.validBit|
    ensures Inv(r.0) && |r.0.frames| == |s.frames| && |r.0.validBit| == |s.validBit|
    ensures r.1.Hit? || r.1.Fault?
    ensures r.1.page == JavaDiv(addr, pageSize) && r.1.offset == JavaRem(addr, pageSize)
    ensures r.1.Hit? <==> s.validBit[r.1.page]
    ensures 0 <= r.1.frame < |r.0.frames| && r.0.frames[r.1.frame] == Some(r.1.page)
    ensures r.0.validBit[r.1.page] && r.0.frameNumbers[r.1.page] == r.1.frame
  {
    var page := JavaDiv(addr, pageSize);
    var offset := JavaRem(addr, pageSize);
    if s.validBit[page] then
      (s, Hit(page, offset, s.frameNumbers[page]))
    else
      var (s1, victim) := HandleFault(s, page);
      (s1, Fault(page, offset, s1.frameNumbers[page], victim))
  }

  /** accessMemory of the GUI copy: an address at or above the process size is rejected first. */
  function CheckedAccess(s: State, pageSize: int, addr: int): (r: (State, Outcome))
    requires Inv(s) && pageSize > 0
    requires addr < pageSize * |s.validBit| ==>
               0 <= JavaDiv(addr, pageSize) < |s.validBit| && |s.frames| > 0
    ensures Inv(r.0)
    ensures r.1.OutOfBounds? <==> addr >= pageSize * |s.validBit|
    ensures r.1.OutOfBounds? ==> r.0 == s
  {
    if addr >= pageSize * |s.validBit| then (s, OutOfBounds)
    else Access(s, pageSize, addr)
  }

  /** The addresses of a trace each name a page of the process (the console copy does not check). */
  ghost predicate Translatable(addrs: seq<int>, pageSize: int, numberOfPages: int)
    requires pageSize > 0
  {
    forall i :: 0 <= i < |addrs| ==> 0 <= JavaDiv(addrs[i], pageSize) < numberOfPages
  }

  /** A trace of accesses, as the console main loop issues them, with the outcome of each. */
  function Run(s: State, pageSize: int, addrs: seq<int>): (r: (State, seq<Outcome>))
    requires Inv(s) && pageSize > 0 && |s.frames| > 0
    requires Translatable(addrs, pageSize, |s.validBit|)
    ensures Inv(r.0) && |r.0.frames| == |s.frames| && |r.0.validBit| == |s.validBit|
    ensures |r.1| == |addrs|
    decreases |addrs|
  {
    if addrs == [] then (s, [])
    else
      var (s1, os) := Run(s, pageSize, addrs[..|addrs| - 1]);
      var (s2, o) := Access(s1, pageSize, addrs[|addrs| - 1]);
      (s2, os + [o])
  }

  /** The pages a list of outcomes loaded, in order. */
  function Loaded(os: seq<Outcome>): seq<int>
  {
    if os == [] then []
    else Loaded(os[..|os| - 1]) + (if os[|os| - 1].Fault? then [os[|os| - 1].page] else [])
  }

  /** The pages a list of outcomes evicted, in order. */
  function Evicted(os: seq<Outcome>): seq<int>
  {
    if os == [] then []
    else
      var o := os[|os| - 1];
      Evicted(os[..|os| - 1]) + (if o.Fault? && o.victim.Some? then [o.victim.value] else [])
  }

  // ---------------------------------------------------------------------------
  // Properties
  // ---------------------------------------------------------------------------

  /** Distinct valid pages sit in distinct frames. */
  lemma DistinctFrames(s: State, p: int, q: int)
    requires Inv(s)
    requires 0 <= p < |s.validBit| && 0 <= q < |s.validBit| && p != q
    requires s.validBit[p] && s.validBit[q]
    ensures s.frameNumbers[p] != s.frameNumbers[q]
  {
  }

  lemma {:induction false} DistinctCount(q: seq<int>)
    requires NoDuplicates(q)
    ensures |set x | x in q| == |q|
  {
    if q != [] {
      var tail := q[1..];
      assert NoDuplicates(tail) by {
        forall i, j | 0 <= i < j < |tail| ensures tail[i] != tail[j] {
          assert tail[i] == q[i + 1] && tail[j] == q[j + 1];
        }
      }
      DistinctCount(tail);
      assert q[0] !in tail by {
        forall i | 0 <= i < |tail| ensures tail[i] != q[0] {
          assert tail[i] == q[i + 1];
        }
      }
      assert (set x | x in q) == {q[0]} + (set x | x in tail) by {
        assert q == [q[0]] + tail;
      }
    }
  }

  /** The queue is as long as the number of resident pages, which never exceeds the frame count. */
  lemma QueueCountsResidents(s: State)
    requires Inv(s)
    ensures |s.queue| == |Resident(s)| && |Resident(s)| <= |s.frames|
  {
    assert Resident(s) == set x | x in s.queue;
    DistinctCount(s.queue);
  }

  /** A hit reports the recorded frame, which holds the page, and changes no state. */
  lemma HitChangesNothing(s: State, pageSize: int, addr: int)
    requires Inv(s) && pageSize > 0 && |s.frames| > 0
    requires 0 <= JavaDiv(addr, pageSize) < |s.validBit|
    requires s.validBit[JavaDiv(addr, pageSize)]
    ensures Access(s, pageSize, addr).0 == s
    ensures Access(s, pageSize, addr).1 ==
              Hit(JavaDiv(addr, pageSize), JavaRem(addr, pageSize), s.frameNumbers[JavaDiv(addr, pageSize)])
    ensures s.frames[s.frameNumbers[JavaDiv(addr, pageSize)]] == Some(JavaDiv(addr, pageSize))
  {
  }

  /** After the fault is handled the retried access hits, so the retry recurses at most once. */
  lemma RetryHits(s: State, pageSize: int, addr: int)
    requires Inv(s) && pageSize > 0 && |s.frames| > 0
    requires 0 <= JavaDiv(addr, pageSize) < |s.validBit|
    requires !s.validBit[JavaDiv(addr, pageSize)]
    ensures var s1 := HandleFault(s, JavaDiv(addr, pageSize)).0;
            Access(s1, pageSize, addr) ==
              (s1, Hit(JavaDiv(addr, pageSize), JavaRem(addr, pageSize), s1.frameNumbers[JavaDiv(addr, pageSize)]))
    ensures var (s1, victim) := HandleFault(s, JavaDiv(addr, pageSize));
            Access(s, pageSize, addr) ==
              (s1, Fault(JavaDiv(addr, pageSize), JavaRem(addr, pageSize), s1.frameNumbers[JavaDiv(addr, pageSize)], victim))
  {
  }

  /**
   * With a free frame left, the faulting page goes into frame |queue|, joins
   * the queue's tail, and nothing else is evicted, moved or invalidated.
   */
  lemma FaultFillsFreeFrame(s: State, page: int)
    requires Inv(s) && 0 <= page < |s.validBit| && !s.validBit[page] && |s.queue| < |s.frames|
    ensures var (t, victim) := HandleFault(s, page);
            victim == None && t.frameNumbers[page] == |s.queue| && t.frames[|s.queue|] == Some(page)
            && s.frames[|s.queue|] == None
            && t.queue == s.queue + [page] && Resident(t) == Resident(s) + {page}
            && (forall f :: 0 <= f < |s.frames| && f != |s.queue| ==> t.frames[f] == s.frames[f])
            && (forall p :: 0 <= p < |s.validBit| && p != page ==> t.frameNumbers[p] == s.frameNumbers[p])
  {
    var t := HandleFault(s, page).0;
    assert Resident(t) == Resident(s) + {page};
  }

  /**
   * With memory full, the victim is the queue head (the oldest load): it
   * loses its valid bit, the faulting page takes its frame and joins the
   * tail, and the queue keeps its length.
   */
  lemma FaultEvictsOldest(s: State, page: int)
    requires Inv(s) && 0 <= page < |s.validBit| && !s.validBit[page]
    requires |s.queue| == |s.frames| > 0
    ensures var (t, victim) := HandleFault(s, page);
            victim == Some(s.queue[0]) && s.validBit[s.queue[0]] && !t.validBit[s.queue[0]]
            && t.frameNumbers[page] == s.frameNumbers[s.queue[0]]
            && s.frames[t.frameNumbers[page]] == Some(s.queue[0])
            && t.frames[t.frameNumbers[page]] == Some(page)
            && t.queue == s.queue[1..] + [page] && |t.queue| == |s.queue|
            && Resident(t) == Resident(s) - {s.queue[0]} + {page}
            && (forall f :: 0 <= f < |s.frames| && f != t.frameNumbers[page] ==> t.frames[f] == s.frames[f])
            && (forall p :: 0 <= p < |s.validBit| && p != page ==> t.frameNumbers[p] == s.frameNumbers[p])
  {
    var t := HandleFault(s, page).0;
    assert Resident(t) == Resident(s) - {s.queue[0]} + {page};
  }

  /** The GUI check rejects exactly the addresses from the process size on, and changes nothing then. */
  lemma BoundaryAddresses(s: State, pageSize: int)
    requires Inv(s) && pageSize > 0 && |s.validBit| > 0 && |s.frames| > 0
    ensures CheckedAccess(s, pageSize, pageSize * |s.validBit|) == (s, OutOfBounds)
    ensures !CheckedAccess(s, pageSize, pageSize * |s.validBit| - 1).1.OutOfBounds?
  {
    AddressSplit(pageSize * |s.validBit| - 1, pageSize, |s.validBit|);
  }

  /** One access is FIFO: what it loads joins the back of the queue, what it evicts leaves the front. */
  lemma AccessIsFifo(s: State, pageSize: int, addr: int)
    requires Inv(s) && pageSize > 0 && |s.frames| > 0
    requires 0 <= JavaDiv(addr, pageSize) < |s.validBit|
    ensures s.queue + Loaded([Access(s, pageSize, addr).1]) ==
              Evicted([Access(s, pageSize, addr).1]) + Access(s, pageSize, addr).0.queue
  {
    var (t, o) := Access(s, pageSize, addr);
    assert [o][..0] == [];
    if o.Fault? && o.victim.Some? {
      assert s.queue == [s.queue[0]] + s.queue[1..];
    }
  }

  /**
   * Over any trace the queue behaves as a FIFO: the queue at the start
   * followed by every page loaded equals every page evicted followed by the
   * queue at the end.
   */
  lemma {:induction false} RunIsFifo(s: State, pageSize: int, addrs: seq<int>)
    requires Inv(s) && pageSize > 0 && |s.frames| > 0
    requires Translatable(addrs, pageSize, |s.validBit|)
    ensures s.queue + Loaded(Run(s, pageSize, addrs).1) ==
              Evicted(Run(s, pageSize, addrs).1) + Run(s, pageSize, addrs).0.queue
    decreases |addrs|
  {
    if addrs != [] {
      var init := addrs[..|addrs| - 1];
      assert Translatable(init, pageSize, |s.validBit|) by {
        forall i | 0 <= i < |init| ensures 0 <= JavaDiv(init[i], pageSize) < |s.validBit| {
          assert init[i] == addrs[i];
        }
      }
      var last := addrs[|addrs| - 1];
      var r1 := Run(s, pageSize, init);
      var r2 := Access(r1.0, pageSize, last);
      assert Run(s, pageSize, addrs) == (r2.0, r1.1 + [r2.1]);
      RunIsFifo(s, pageSize, init);
      AccessIsFifo(r1.0, pageSize, last);
      AppendOutcome(r1.1, r2.1);
      FifoCompose(s.queue, Loaded(r1.1), Evicted(r1.1), r1.0.queue,
                  Loaded([r2.1]), Evicted([r2.1]), r2.0.queue);
    }
  }

  /** Two FIFO steps make one: queue q0 becomes q1 by loading l1 and evicting e1, then q2 likewise. */
  lemma FifoCompose(q0: seq<int>, l1: seq<int>, e1: seq<int>, q1: seq<int>,
                    l2: seq<int>, e2: seq<int>, q2: seq<int>)
    requires q0 + l1 == e1 + q1 && q1 + l2 == e2 + q2
    ensures q0 + (l1 + l2) == (e1 + e2) + q2
  {
    calc {
      q0 + (l1 + l2);
      (q0 + l1) + l2;
      (e1 + q1) + l2;
      e1 + (q1 + l2);
      e1 + (e2 + q2);
      (e1 + e2) + q2;
    }
  }

  lemma AppendOutcome(os: seq<Outcome>, o: Outcome)
    ensures Loaded(os + [o]) == Loaded(os) + Loaded([o])
    ensures Evicted(os + [o]) == Evicted(os) + Evicted([o])
  {
    var all := os + [o];
    assert all[..|all| - 1] == os;
    assert [o][..0] == [];
  }

  /**
   * From an empty queue, as in a fresh simulation, pages are evicted in
   * exactly the order they were loaded, and the pages still queued are the
   * most recent loads.
   */
  lemma EvictionFollowsLoadOrder(s: State, pageSize: int, addrs: seq<int>)
    requires Inv(s) && s.queue == [] && pageSize > 0 && |s.frames| > 0
    requires Translatable(addrs, pageSize, |s.validBit|)
    ensures Loaded(Run(s, pageSize, addrs).1) == Evicted(Run(s, pageSize, addrs).1) + Run(s, pageSize, addrs).0.queue
    ensures Evicted(Run(s, pageSize, addrs).1) <= Loaded(Run(s, pageSize, addrs).1)
  {
    RunIsFifo(s, pageSize, addrs);
  }

  /** The address trace of the console main: 4 frames of 4 bytes, 8 pages. */
  const ConsoleAddresses: seq<int> := [1, 4, 9, 12, 8, 13, 20, 24, 4, 28]

  /** The outcome of each access of the console trace. */
  const ConsoleOutcomes: seq<Outcome> :=
    [Fault(0, 1, 0, None), Fault(1, 0, 1, None), Fault(2, 1, 2, None), Fault(3, 0, 3, None),
     Hit(2, 0, 2), Hit(3, 1, 3),
     Fault(5, 0, 0, Some(0)), Fault(6, 0, 1, Some(1)), Fault(1, 0, 2, Some(2)), Fault(7, 0, 3, Some(3))]

  /** The state before each access of the console trace, and after the last one. */
  const ConsoleStates: seq<State> := [
    State([None, None, None, None], [0, 0, 0, 0, 0, 0, 0, 0],
          [false, false, false, false, false, false, false, false], []),
    State([Some(0), None, None, None], [0, 0, 0, 0, 0, 0, 0, 0],
          [true, false, false, false, false, false, false, false], [0]),
    State([Some(0), Some(1), None, None], [0, 1, 0, 0, 0, 0, 0, 0],
          [true, true, false, false, false, false, false, false], [0, 1]),
    State([Some(0), Some(1), Some(2), None], [0, 1, 2, 0, 0, 0, 0, 0],
          [true, true, true, false, false, false, false, false], [0, 1, 2]),
    State([Some(0), Some(1), Some(2), Some(3)], [0, 1, 2, 3, 0, 0, 0, 0],
          [true, true, true, true, false, false, false, false], [0, 1, 2, 3]),
    State([Some(0), Some(1), Some(2), Some(3)], [0, 1, 2, 3, 0, 0, 0, 0],
          [true, true, true, true, false, false, false, false], [0, 1, 2, 3]),
    State([Some(0), Some(1), Some(2), Some(3)], [0, 1, 2, 3, 0, 0, 0, 0],
          [true, true, true, true, false, false, false, false], [0, 1, 2, 3]),
    State([Some(5), Some(1), Some(2), Some(3)], [0, 1, 2, 3, 0, 0, 0, 0],
          [false, true, true, true, false, true, false, false], [1, 2, 3, 5]),
    State([Some(5), Some(6), Some(2), Some(3)], [0, 1, 2, 3, 0, 0, 1, 0],
          [false, false, true, true, false, true, true, false], [2, 3, 5, 6]),
    State([Some(5), Some(6), Some(1), Some(3)], [0, 2, 2, 3, 0, 0, 1, 0],
          [false, true, false, true, false, true, true, false], [3, 5, 6, 1]),
    State([Some(5), Some(6), Some(1), Some(7)], [0, 2, 2, 3, 0, 0, 1, 3],
          [false, true, false, false, false, true, true, true], [5, 6, 1, 7])]

  // The literal steps of the trace come in pairs, one lemma per pair, only to
  // keep each proof small for the solver.

  /** The first two accesses of the console trace load pages 0 and 1 into frames 0 and 1. */
  lemma ConsoleFillEarlySteps()
    ensures forall k :: 0 <= k < 2 ==>
              |ConsoleStates[k].queue| == k && !ConsoleStates[k].validBit[k] &&
              Load(ConsoleStates[k], k, k) == ConsoleStates[k + 1]
  {
    assert Load(ConsoleStates[0], 0, 0) == ConsoleStates[1];
    assert Load(ConsoleStates[1], 1, 1) == ConsoleStates[2];
  }

  /** Accesses 3 and 4 of the console trace load pages 2 and 3 into frames 2 and 3. */
  lemma ConsoleFillLateSteps()
    ensures forall k :: 2 <= k < 4 ==>
              |ConsoleStates[k].queue| == k && !ConsoleStates[k].validBit[k] &&
              Load(ConsoleStates[k], k, k) == ConsoleStates[k + 1]
  {
    assert Load(ConsoleStates[2], 2, 2) == ConsoleStates[3];
    assert Load(ConsoleStates[3], 3, 3) == ConsoleStates[4];
  }

  /** Accesses 7 and 8 of the console trace evict pages 0 and 1 and reuse their frames. */
  lemma ConsoleEvictEarlySteps()
    ensures forall k :: 6 <= k < 8 ==>
              |ConsoleStates[k].queue| == 4 && ConsoleStates[k].queue[0] == k - 6 &&
              ConsoleStates[k].frameNumbers[k - 6] == k - 6 &&
              !ConsoleStates[k].validBit[ConsoleOutcomes[k].page] &&
              Load(EvictOldest(ConsoleStates[k]), ConsoleOutcomes[k].page, k - 6) == ConsoleStates[k + 1]
  {
    assert Load(EvictOldest(ConsoleStates[6]), 5, 0) == ConsoleStates[7];
    assert Load(EvictOldest(ConsoleStates[7]), 6, 1) == ConsoleStates[8];
  }

  /** Accesses 9 and 10 of the console trace evict pages 2 and 3 and reuse their frames. */
  lemma ConsoleEvictLateSteps()
    ensures forall k :: 8 <= k < 10 ==>
              |ConsoleStates[k].queue| == 4 && ConsoleStates[k].queue[0] == k - 6 &&
              ConsoleStates[k].frameNumbers[k - 6] == k - 6 &&
              !ConsoleStates[k].validBit[ConsoleOutcomes[k].page] &&
              Load(EvictOldest(ConsoleStates[k]), ConsoleOutcomes[k].page, k - 6) == ConsoleStates[k + 1]
  {
    assert Load(EvictOldest(ConsoleStates[8]), 1, 2) == ConsoleStates[9];
    assert Load(EvictOldest(ConsoleStates[9]), 7, 3) == ConsoleStates[10];
  }

  /** An access that faults while a frame is free ends in the state that loading there gives. */
  lemma FillStep(s: State, pageSize: int, addr: int, t: State)
    requires Inv(s) && pageSize > 0 && |s.queue| < |s.frames|
    requires 0 <= JavaDiv(addr, pageSize) < |s.validBit| && !s.validBit[JavaDiv(addr, pageSize)]
    requires Load(s, JavaDiv(addr, pageSize), |s.queue|) == t
    ensures Access(s, pageSize, addr) ==
              (t, Fault(JavaDiv(addr, pageSize), JavaRem(addr, pageSize), |s.queue|, None))
  {
  }

  /** An access that faults with memory full ends in the state that evicting the queue head gives. */
  lemma EvictStep(s: State, pageSize: int, addr: int, t: State)
    requires Inv(s) && pageSize > 0 && |s.queue| == |s.frames| > 0
    requires 0 <= JavaDiv(addr, pageSize) < |s.validBit| && !s.validBit[JavaDiv(addr, pageSize)]
    requires Load(EvictOldest(s), JavaDiv(addr, pageSize), s.frameNumbers[s.queue[0]]) == t
    ensures Access(s, pageSize, addr) ==
              (t, Fault(JavaDiv(addr, pageSize), JavaRem(addr, pageSize), s.frameNumbers[s.queue[0]], Some(s.queue[0])))
  {
  }

  lemma ConsoleFillAccess(k: nat)
    requires k < 4 && Inv(ConsoleStates[k])
    ensures Access(ConsoleStates[k], 4, ConsoleAddresses[k]) == (ConsoleStates[k + 1], ConsoleOutcomes[k])
  {
    var a := ConsoleAddresses[k];
    ConsoleFillEarlySteps();
    ConsoleFillLateSteps();
    assert JavaDiv(a, 4) == k && JavaRem(a, 4) == ConsoleOutcomes[k].offset;
    FillStep(ConsoleStates[k], 4, a, ConsoleStates[k + 1]);
  }

  lemma ConsoleEvictEarlyAccess(k: nat)
    requires 6 <= k < 8 && Inv(ConsoleStates[k])
    ensures Access(ConsoleStates[k], 4, ConsoleAddresses[k]) == (ConsoleStates[k + 1], ConsoleOutcomes[k])
  {
    var a := ConsoleAddresses[k];
    ConsoleEvictEarlySteps();
    assert JavaDiv(a, 4) == ConsoleOutcomes[k].page && JavaRem(a, 4) == 0;
    EvictStep(ConsoleStates[k], 4, a, ConsoleStates[k + 1]);
  }

  lemma ConsoleEvictLateAccess(k: nat)
    requires 8 <= k < 10 && Inv(ConsoleStates[k])
    ensures Access(ConsoleStates[k], 4, ConsoleAddresses[k]) == (ConsoleStates[k + 1], ConsoleOutcomes[k])
  {
    var a := ConsoleAddresses[k];
    ConsoleEvictLateSteps();
    assert JavaDiv(a, 4) == ConsoleOutcomes[k].page && JavaRem(a, 4) == 0;
    EvictStep(ConsoleStates[k], 4, a, ConsoleStates[k + 1]);
  }

  /** Accesses 5 and 6 of the console trace find pages 2 and 3 resident in frames 2 and 3. */
  lemma ConsoleHitSteps()
    ensures forall k :: 4 <= k < 6 ==>
              JavaDiv(ConsoleAddresses[k], 4) == k - 2 && JavaRem(ConsoleAddresses[k], 4) == k - 4 &&
              ConsoleStates[k + 1] == ConsoleStates[k] && ConsoleStates[k].validBit[k - 2] &&
              ConsoleStates[k].frameNumbers[k - 2] == k - 2 && ConsoleOutcomes[k] == Hit(k - 2, k - 4, k - 2)
  {
    assert ConsoleStates[5] == ConsoleStates[4];
    assert ConsoleStates[6] == ConsoleStates[5];
  }

  /** Accesses 5 and 6 of the console trace hit pages 2 and 3. */
  lemma ConsoleHitAccess(k: nat)
    requires 4 <= k < 6 && Inv(ConsoleStates[k])
    ensures Access(ConsoleStates[k], 4, ConsoleAddresses[k]) == (ConsoleStates[k + 1], ConsoleOutcomes[k])
  {
    ConsoleHitSteps();
    HitChangesNothing(ConsoleStates[k], 4, ConsoleAddresses[k]);
  }

  /** Each access of the console trace takes the simulation to the next listed state. */
  lemma ConsoleStepAt(k: nat)
    requires k < 10 && Inv(ConsoleStates[k])
    ensures Access(ConsoleStates[k], 4, ConsoleAddresses[k]) == (ConsoleStates[k + 1], ConsoleOutcomes[k])
  {
    if k < 4 {
      ConsoleFillAccess(k);
    } else if k < 6 {
      ConsoleHitAccess(k);
    } else if k < 8 {
      ConsoleEvictEarlyAccess(k);
    } else {
      ConsoleEvictLateAccess(k);
    }
  }

  lemma ConsoleTranslatable()
    ensures Translatable(ConsoleAddresses, 4, 8)
  {
    forall i | 0 <= i < |ConsoleAddresses|
      ensures 0 <= JavaDiv(ConsoleAddresses[i], 4) < 8
    {
      AddressSplit(ConsoleAddresses[i], 4, 8);
    }
  }

  lemma TakeAll<T>(s: seq<T>)
    ensures s[..|s|] == s
  {
  }

  lemma TakeOneMore<T>(s: seq<T>, k: nat)
    requires 0 < k <= |s|
    ensures s[..k] == s[..k - 1] + [s[k - 1]]
  {
  }

  lemma {:induction false} ConsolePrefix(k: nat)
    requires k <= 10
    ensures Translatable(ConsoleAddresses[..k], 4, 8)
    ensures Run(Initial(4, 8), 4, ConsoleAddresses[..k]) == (ConsoleStates[k], ConsoleOutcomes[..k])
  {
    ConsoleTranslatable();
    if k == 0 {
      assert Initial(4, 8) == ConsoleStates[0];
      RunStep(Initial(4, 8), 4, ConsoleAddresses, 0);
    } else {
      ConsolePrefix(k - 1);
      RunStep(Initial(4, 8), 4, ConsoleAddresses, k - 1);
      ConsoleStepAt(k - 1);
      TakeOneMore(ConsoleOutcomes, k);
    }
  }

  /**
   * The console trace faults 8 times and hits twice (addresses 8 and 13);
   * pages 0, 1, 2, 3 are evicted in that order from frames 0, 1, 2, 3, and
   * the frames and the queue end as [5, 6, 1, 7].
   */
  lemma ConsoleScenario()
    ensures Translatable(ConsoleAddresses, 4, 8)
    ensures Run(Initial(4, 8), 4, ConsoleAddresses).1 == ConsoleOutcomes
    ensures Run(Initial(4, 8), 4, ConsoleAddresses).0.frames == [Some(5), Some(6), Some(1), Some(7)]
    ensures Run(Initial(4, 8), 4, ConsoleAddresses).0.queue == [5, 6, 1, 7]
  {
    ConsolePrefix(10);
    TakeAll(ConsoleAddresses);
    TakeAll(ConsoleOutcomes);
  }

  /** One more address of a trace is one more access after the shorter run. */
  lemma RunStep(s: State, pageSize: int, addrs: seq<int>, i: nat)
    requires Inv(s) && pageSize > 0 && |s.frames| > 0 && i < |addrs|
    requires Translatable(addrs, pageSize, |s.validBit|)
    ensures Translatable(addrs[..i], pageSize, |s.validBit|)
    ensures Translatable(addrs[..i + 1], pageSize, |s.validBit|)
    ensures Run(s, pageSize, addrs[..i + 1]) ==
              (Access(Run(s, pageSize, addrs[..i]).0, pageSize, addrs[i]).0,
               Run(s, pageSize, addrs[..i]).1 + [Access(Run(s, pageSize, addrs[..i]).0, pageSize, addrs[i]).1])
  {
    assert addrs[..i + 1][..i] == addrs[..i];
  }
}
