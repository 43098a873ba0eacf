/** The NRU eviction scan of `frame.c`: at most two rounds, each a class-1 pass followed by
    a class-3 pass over the requesting thread's frames. The class is read from the faulting
    page `upage`, not from the scanned frame's own page, and the class-3 pass clears the
    accessed bit of `upage`; both are modelled as written. */
module Evictor {
  import opened Wrappers
  import opened Handles
  import opened PageBits
  import opened Frames

  /** Every address the hash iterator yields is a key of the table. */
  predicate InTable(order: seq<Addr>, t: FrameTable) {
    forall a | a in order :: a in t
  }

  /** `order` is one full pass of a hash iterator: every key, each exactly once. */
  predicate Enumerates(order: seq<Addr>, t: FrameTable) {
    && InTable(order, t)
    && (forall a | a in t :: a in order)
    && (forall i, j | 0 <= i < j < |order| :: order[i] != order[j])
  }

  /** The addresses of the frames of `th`, in iteration order. */
  function Owned(t: FrameTable, order: seq<Addr>, th: ThreadId): (own: seq<Addr>)
    requires InTable(order, t)
    ensures forall a :: a in own <==> a in order && t[a].owner == th
    ensures |own| <= |order|
  {
    if |order| == 0 then []
    else (if t[order[0]].owner == th then [order[0]] else []) + Owned(t, order[1..], th)
  }

  /** With a full enumeration, `th` has no frame in the scan exactly when it owns none. */
  lemma OwnedEmptyIff(t: FrameTable, order: seq<Addr>, th: ThreadId)
    requires Enumerates(order, t)
    ensures Owned(t, order, th) == [] <==> forall a | a in t :: t[a].owner != th
  {
    if Owned(t, order, th) != [] {
      assert Owned(t, order, th)[0] in Owned(t, order, th);
    }
  }

  /** `order[k]` is the first address of `order` whose record belongs to `th`. */
  predicate FirstOwnedAt(t: FrameTable, order: seq<Addr>, th: ThreadId, k: nat)
    requires InTable(order, t)
  {
    && k < |order|
    && t[order[k]].owner == th
    && forall j | 0 <= j < k :: t[order[j]].owner != th
  }

  /** Skipping a frame of another thread moves the first owned position by one. */
  lemma FirstOwnedShift(t: FrameTable, order: seq<Addr>, th: ThreadId, k: nat)
    requires InTable(order, t) && |order| > 0
    requires t[order[0]].owner != th
    requires FirstOwnedAt(t, order[1..], th, k)
    ensures FirstOwnedAt(t, order, th, k + 1)
  {
  }

  /** The candidate list keeps iteration order: its head is the first address of `order`
      owned by `th`, and its tail is the candidate list of what follows that address. */
  lemma {:induction false} OwnedInOrder(t: FrameTable, order: seq<Addr>, th: ThreadId)
    requires InTable(order, t)
    ensures var own := Owned(t, order, th);
            own != [] ==> exists k: nat :: FirstOwnedAt(t, order, th, k)
                                        && order[k] == own[0]
                                        && own[1..] == Owned(t, order[k + 1..], th)
    decreases |order|
  {
    var own := Owned(t, order, th);
    if |order| > 0 && own != [] {
      if t[order[0]].owner == th {
        assert FirstOwnedAt(t, order, th, 0);
        assert order[1..] == order[0 + 1..];
      } else {
        var rest := order[1..];
        assert own == Owned(t, rest, th);
        OwnedInOrder(t, rest, th);
        var k: nat :| FirstOwnedAt(t, rest, th, k) && rest[k] == own[0]
                      && own[1..] == Owned(t, rest[k + 1..], th);
        FirstOwnedShift(t, order, th, k);
        assert rest[k + 1..] == order[k + 2..];
        assert order[k + 1] == own[0];
      }
    }
  }

  /** `page_dump`: its body is commented out, so it changes nothing. */
  function PageDump(pd: PageDir, page: Page, frame: Frame): PageDir {
    pd
  }

  /** What one pass leaves behind: the victim found, if any, and the page bits. */
  datatype Scan = Scan(victim: Option<Addr>, pd: PageDir)

  /** The class-1 pass: the first frame of `th` is taken if `upage` is in class 1. The
      `page_dump` call on the victim changes nothing, so no bit changes. */
  function ClassOnePass(t: FrameTable, order: seq<Addr>, upage: Page, th: ThreadId, pd: PageDir)
    : (r: Option<Addr>)
    requires Wf(t) && InTable(order, t)
    ensures r.None? <==> Owned(t, order, th) == [] || GetClass(pd, upage) != 1
    ensures r.Some? ==> r.value == Owned(t, order, th)[0]
    decreases |order|
  {
    if |order| == 0 then None
    else
      var f := t[order[0]];
      if f.owner == th && GetClass(pd, upage) == 1 then
        Some(f.addr)
      else ClassOnePass(t, order[1..], upage, th, pd)
  }

  /** The class-3 pass: for each frame of `th`, take it if `upage` is in class 3, then clear
      the accessed bit of `upage`. Because the first clearing demotes class 4 to class 3, a
      class-4 `upage` makes the second frame of `th` the victim. */
  function ClassThreePass(t: FrameTable, order: seq<Addr>, upage: Page, th: ThreadId, pd: PageDir)
    : (r: Scan)
    requires Wf(t) && InTable(order, t)
    ensures var own := Owned(t, order, th);
            var c := GetClass(pd, upage);
            && (own == [] ==> r == Scan(None, pd))
            && (own != [] ==> r.pd == SetAccessed(pd, upage, false))
            && (own != [] && c == 3 ==> r.victim == Some(own[0]))
            && (own != [] && c == 4 ==> r.victim == if |own| >= 2 then Some(own[1]) else None)
            && (c == 1 || c == 2 ==> r.victim == None)
    decreases |order|
  {
    if |order| == 0 then Scan(None, pd)
    else
      var f := t[order[0]];
      if f.owner != th then ClassThreePass(t, order[1..], upage, th, pd)
      else
        var cls := GetClass(pd, upage);
        var dumped := if cls == 3 then PageDump(pd, upage, f) else pd;
        var cleared := SetAccessed(dumped, upage, false);
        ClearAccessedDemotes(pd, upage);
        ClearAccessedIdempotent(pd, upage);
        if cls == 3 then Scan(Some(f.addr), cleared)
        else ClassThreePass(t, order[1..], upage, th, cleared)
  }

  /** One round of the outer loop: the class-1 pass, then, if it found nothing, the class-3 pass. */
  function Round(t: FrameTable, order: seq<Addr>, upage: Page, th: ThreadId, pd: PageDir): (r: Scan)
    requires Wf(t) && InTable(order, t)
    ensures var own := Owned(t, order, th);
            var c := GetClass(pd, upage);
            && (own == [] ==> r == Scan(None, pd))
            && (own != [] && c == 1 ==> r == Scan(Some(own[0]), pd))
            && (own != [] && c != 1 ==> r == ClassThreePass(t, order, upage, th, pd))
  {
    var first := ClassOnePass(t, order, upage, th, pd);
    if first.Some? then Scan(first, pd) else ClassThreePass(t, order, upage, th, pd)
  }

  /** What `evict` returns, the page bits it leaves, and how many rounds the outer loop ran. */
  datatype Eviction = Eviction(victim: Option<Addr>, pd: PageDir, rounds: nat)

  /** The outer loop of `evict` from round `i` on: it stops after two rounds or as soon as a
      round finds a victim. */
  function EvictFrom(i: nat, t: FrameTable, order: seq<Addr>, upage: Page, th: ThreadId, pd: PageDir)
    : (r: Eviction)
    requires i <= 2
    requires Wf(t) && InTable(order, t)
    ensures i <= r.rounds <= 2
    ensures r.victim.None? ==> r.rounds == 2
    decreases 2 - i
  {
    if i == 2 then Eviction(None, pd, i)
    else
      var s := Round(t, order, upage, th, pd);
      if s.victim.Some? then Eviction(s.victim, s.pd, i + 1)
      else EvictFrom(i + 1, t, order, upage, th, s.pd)
  }

  /** The outcome of `evict` stated without the scan: it depends only on the class of the
      faulting page and on the frames of `th` in iteration order. */
  function Expected(t: FrameTable, order: seq<Addr>, upage: Page, th: ThreadId, pd: PageDir)
    : Eviction
    requires InTable(order, t)
  {
    var own := Owned(t, order, th);
    var cleared := SetAccessed(pd, upage, false);
    if own == [] then Eviction(None, pd, 2)
    else
      match GetClass(pd, upage)
      case 1 => Eviction(Some(own[0]), pd, 1)
      case 2 => Eviction(Some(own[0]), cleared, 2)
      case 3 => Eviction(Some(own[0]), pd, 1)
      case _ => if |own| >= 2 then Eviction(Some(own[1]), cleared, 1)
                else Eviction(Some(own[0]), cleared, 2)
  }

  /** The scan computes the expected outcome for every table, order, page and bits. */
  lemma EvictIsExpected(t: FrameTable, order: seq<Addr>, upage: Page, th: ThreadId, pd: PageDir)
    requires Wf(t) && InTable(order, t)
    ensures EvictFrom(0, t, order, upage, th, pd) == Expected(t, order, upage, th, pd)
  {
    var own := Owned(t, order, th);
    var c := GetClass(pd, upage);
    var cleared := SetAccessed(pd, upage, false);
    ClearAccessedDemotes(pd, upage);
    ClearAccessedIdempotent(pd, upage);
    ClearAccessedWhenClear(pd, upage);
    if own != [] && (c == 2 || (c == 4 && |own| < 2)) {
      var s := Round(t, order, upage, th, pd);
      assert s == Scan(None, cleared);
      var s2 := Round(t, order, upage, th, cleared);
      assert s2.victim == Some(own[0]);
    }
  }

  /** `evict(upage, th)`: a victim among the frames of `th`, or None. */
  function Evict(t: FrameTable, order: seq<Addr>, upage: Page, th: ThreadId, pd: PageDir)
    : (r: Eviction)
    requires Wf(t) && InTable(order, t)
    ensures r.victim.Some? ==> r.victim.value in order && t[r.victim.value].owner == th
    ensures r.victim.None? <==> Owned(t, order, th) == []
    ensures 1 <= r.rounds <= 2
    ensures r.victim.None? ==> r.rounds == 2 && r.pd == pd
    ensures r.pd.Keys == pd.Keys
    ensures forall p | p in pd && p != upage :: r.pd[p] == pd[p]
    ensures IsDirty(r.pd, upage) == IsDirty(pd, upage)
    ensures !IsAccessed(pd, upage) ==> r.pd == pd
  {
    EvictIsExpected(t, order, upage, th, pd);
    ClearAccessedWhenClear(pd, upage);
    var own := Owned(t, order, th);
    assert own != [] ==> own[0] in own;
    assert |own| >= 2 ==> own[1] in own;
    EvictFrom(0, t, order, upage, th, pd)
  }

  /** Over a full enumeration of the table, `evict` fails exactly when `th` owns no frame. */
  lemma EvictFailsIffNoFrames(t: FrameTable, order: seq<Addr>, upage: Page, th: ThreadId, pd: PageDir)
    requires Wf(t) && Enumerates(order, t)
    ensures Evict(t, order, upage, th, pd).victim.None? <==> forall a | a in t :: t[a].owner != th
  {
    OwnedEmptyIff(t, order, th);
  }

  /** One step of the class-1 pass at position `j` of the iteration order. */
  lemma ClassOnePassStep(t: FrameTable, order: seq<Addr>, j: nat, upage: Page, th: ThreadId, pd: PageDir)
    requires Wf(t) && InTable(order, t) && j < |order|
    ensures ClassOnePass(t, order[j..], upage, th, pd) ==
      if t[order[j]].owner == th && GetClass(pd, upage) == 1 then Some(order[j])
      else ClassOnePass(t, order[j + 1..], upage, th, pd)
  {
  }

  /** The class-1 loop of `evict` (frame.c:148-158) over the iteration order `order`. It
      reads the bits and changes none: `page_dump` on the victim is a no-op. */
  method ClassOneLoop(t: FrameTable, order: seq<Addr>, upage: Page, th: ThreadId, pd: PageDir)
    returns (kpage: Option<Addr>)
    requires Wf(t) && InTable(order, t)
    ensures kpage == ClassOnePass(t, order, upage, th, pd)
  {
    kpage := None;
    var j := 0;
    while j < |order| && kpage.None?
      invariant 0 <= j <= |order|
      invariant kpage.None? ==>
        ClassOnePass(t, order[j..], upage, th, pd) == ClassOnePass(t, order, upage, th, pd)
      invariant kpage.Some? ==> kpage == ClassOnePass(t, order, upage, th, pd)
    {
      ClassOnePassStep(t, order, j, upage, th, pd);
      var f := t[order[j]];
      if f.owner == th {
        var cls := GetClass(pd, upage);
        if cls == 1 {
          kpage := Some(f.addr);
        }
      }
      j := j + 1;
    }
  }

  /** The class-3 loop of `evict` (frame.c:160-171) over the iteration order `order`. */
  method ClassThreeLoop(t: FrameTable, order: seq<Addr>, upage: Page, th: ThreadId, pd0: PageDir)
    returns (kpage: Option<Addr>, pd: PageDir)
    requires Wf(t) && InTable(order, t)
    ensures Scan(kpage, pd) == ClassThreePass(t, order, upage, th, pd0)
  {
    kpage := None;
    pd := pd0;
    var j := 0;
    while j < |order| && kpage.None?
      invariant 0 <= j <= |order|
      invariant kpage.None? ==>
        ClassThreePass(t, order[j..], upage, th, pd) == ClassThreePass(t, order, upage, th, pd0)
      invariant kpage.Some? ==> Scan(kpage, pd) == ClassThreePass(t, order, upage, th, pd0)
    {
      assert order[j..][1..] == order[j + 1..];
      var f := t[order[j]];
      if f.owner == th {
        var cls := GetClass(pd, upage);
        if cls == 3 {
          pd := PageDump(pd, upage, f);
          kpage := Some(f.addr);
        }
        pd := SetAccessed(pd, upage, false);
      }
      j := j + 1;
    }
  }

  /** The outer loop of `evict` as written, with the hash iterator as `order`; it computes
      `Evict`. When the class-1 loop finds a victim, the guard of the class-3 loop fails at
      once, so that loop is not entered. */
  method ScanForVictim(t: FrameTable, order: seq<Addr>, upage: Page, th: ThreadId, pd0: PageDir)
    returns (kpage: Option<Addr>, pd: PageDir, rounds: nat)
    requires Wf(t) && InTable(order, t)
    ensures Eviction(kpage, pd, rounds) == Evict(t, order, upage, th, pd0)
  {
    kpage := None;
    pd := pd0;
    var i := 0;
    while i < 2 && kpage.None?
      invariant 0 <= i <= 2
      invariant kpage.None? ==> EvictFrom(i, t, order, upage, th, pd) == Evict(t, order, upage, th, pd0)
      invariant kpage.Some? ==> 1 <= i && Eviction(kpage, pd, i) == Evict(t, order, upage, th, pd0)
      decreases 2 - i
    {
      var start := pd;
      kpage := ClassOneLoop(t, order, upage, th, start);
      if kpage.None? {
        kpage, pd := ClassThreeLoop(t, order, upage, th, start);
      }
      assert Scan(kpage, pd) == Round(t, order, upage, th, start);
      i := i + 1;
    }
    rounds := i;
  }
}
