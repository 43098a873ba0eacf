/** Concrete scenarios of the frame table and of `evict`, including where the code departs
    from a per-frame NRU policy. */
module Scenarios {
  import opened Wrappers
  import opened Handles
  import opened PageBits
  import opened Frames
  import opened Evictor
  import opened Allocator

  const A: Addr := 0xC010_1000
  const B: Addr := 0xC010_2000
  const C: Addr := 0xC010_3000

  /** Two frames of thread 1 (user pages 0x1000 and 0x2000) and one of thread 2. */
  function Table(): (t: FrameTable)
    ensures Wf(t)
  {
    map[A := Frame(A, 0x1000, 1), B := Frame(B, 0x2000, 1), C := Frame(C, 0x4000, 2)]
  }

  /** Thread 1's page bits: page 0x1000 is in class 4, page 0x2000 in class 1. */
  function Bits1(fault: Bits): PageDir {
    map[0x1000 := Bits(true, true), 0x2000 := Bits(false, false), 0x3000 := fault]
  }

  /** Thread 1's candidates when the iterator visits A, C, B. */
  lemma OwnedACB()
    ensures Owned(Table(), [A, C, B], 1) == [A, B]
  {
    assert [B][1..] == [];
    assert Owned(Table(), [B], 1) == [B];
    assert [C, B][1..] == [B];
    assert Owned(Table(), [C, B], 1) == [B];
    assert [A, C, B][1..] == [C, B];
  }

  /** Thread 1's candidates when the iterator visits C, A, B. */
  lemma OwnedCAB()
    ensures Owned(Table(), [C, A, B], 1) == [A, B]
  {
    assert [B][1..] == [];
    assert Owned(Table(), [B], 1) == [B];
    assert [A, B][1..] == [B];
    assert Owned(Table(), [A, B], 1) == [A, B];
    assert [C, A, B][1..] == [A, B];
  }

  /** On an empty table a page from the allocator is registered for the caller and found
      by a lookup. */
  lemma AcquireOnEmptyTable()
    ensures var r := FrameGet(FrameInit(), [], map[], 0x1000, 1, Some(A));
            && r.kpage == Some(A)
            && FrameFind(r.table, A) == Some(Frame(A, 0x1000, 1))
  {
  }

  /** Releasing an address twice: the first call succeeds, the second finds nothing. */
  lemma ReleaseTwice()
    ensures FrameFree(Table(), A).found
    ensures !FrameFree(FrameFree(Table(), A).table, A).found
  {
    FreeIdempotent(Table(), A);
  }

  /** With an untouched faulting page the first frame of thread 1 is taken, although that
      frame's own page is in class 4 and the other frame's page is in class 1: the class is
      read from the faulting page. Thread 2's frame is never a candidate. */
  lemma ClassReadFromFaultingPage()
    ensures Evict(Table(), [C, A, B], 0x3000, 1, Bits1(Bits(false, false)))
         == Eviction(Some(A), Bits1(Bits(false, false)), 1)
  {
    EvictIsExpected(Table(), [C, A, B], 0x3000, 1, Bits1(Bits(false, false)));
    OwnedCAB();
  }

  /** A faulting page in class 4 makes the second frame of thread 1 the victim in the first
      round: clearing the accessed bit after the first frame demoted the page to class 3. */
  lemma SecondFrameAfterDemotion()
    ensures Evict(Table(), [A, C, B], 0x3000, 1, Bits1(Bits(true, true)))
         == Eviction(Some(B), Bits1(Bits(false, true)), 1)
  {
    var pd := Bits1(Bits(true, true));
    OwnedACB();
    assert GetClass(pd, 0x3000) == 4;
    assert SetAccessed(pd, 0x3000, false) == Bits1(Bits(false, true)) by {
      assert pd[0x3000 := Bits(false, true)] == Bits1(Bits(false, true));
    }
    assert Expected(Table(), [A, C, B], 0x3000, 1, pd) == Eviction(Some(B), Bits1(Bits(false, true)), 1);
    EvictIsExpected(Table(), [A, C, B], 0x3000, 1, pd);
  }

  /** A thread whose only frame has a class-4 faulting page still gets a victim, in the
      second round, instead of running out of memory. */
  lemma ClassFourOnlyStillEvicts()
    ensures var t := map[A := Frame(A, 0x1000, 1)];
            var pd := map[0x1000 := Bits(true, true)];
            Evict(t, [A], 0x1000, 1, pd) == Eviction(Some(A), map[0x1000 := Bits(false, true)], 2)
  {
    var t := map[A := Frame(A, 0x1000, 1)];
    var pd := map[0x1000 := Bits(true, true)];
    EvictIsExpected(t, [A], 0x1000, 1, pd);
    assert Owned(t, [A], 1) == [A] by {
      assert [A][1..] == [];
    }
  }

  /** The usual fault: the faulting page has no entry yet, so it reads as class 1, and the
      first frame of the thread is taken in round 1 with no bit changed, although both of the
      thread's frames have pages in class 4. */
  lemma UnmappedFaultingPageTakesFirst()
    ensures var t := map[A := Frame(A, 0x1000, 1), B := Frame(B, 0x2000, 1)];
            var pd := map[0x1000 := Bits(true, true), 0x2000 := Bits(true, true)];
            Evict(t, [A, B], 0x5000, 1, pd) == Eviction(Some(A), pd, 1)
  {
    var t := map[A := Frame(A, 0x1000, 1), B := Frame(B, 0x2000, 1)];
    var pd := map[0x1000 := Bits(true, true), 0x2000 := Bits(true, true)];
    assert Owned(t, [A, B], 1) == [A, B] by {
      assert [B][1..] == [];
      assert Owned(t, [B], 1) == [B];
      assert [A, B][1..] == [B];
    }
    assert GetClass(pd, 0x5000) == 1;
    EvictIsExpected(t, [A, B], 0x5000, 1, pd);
  }

  /** A thread that owns no frame gets no victim, whatever the bits, after both rounds, and
      no bit changes. */
  lemma NoOwnFrameNoVictim(pd: PageDir)
    ensures Evict(Table(), [A, B, C], 0x3000, 3, pd) == Eviction(None, pd, 2)
  {
    assert Owned(Table(), [A, B, C], 3) == [] by {
      assert [C][1..] == [];
      assert Owned(Table(), [C], 3) == [];
      assert [B, C][1..] == [C];
      assert Owned(Table(), [B, C], 3) == [];
      assert [A, B, C][1..] == [B, C];
    }
  }
}
