/** `frame_get`: a frame from the page allocator, or else from eviction, registered in the
    frame table for the calling thread. */
module Allocator {
  import opened Wrappers
  import opened Handles
  import opened PageBits
  import opened Frames
  import opened Evictor

  /** What `frame_get` returns, the frame table afterwards, and the caller's page bits
      afterwards (eviction may clear an accessed bit). */
  datatype Acquired = Acquired(kpage: Option<Addr>, table: FrameTable, pd: PageDir)

  /** `frame_get(upage, zero)` called by thread `th` whose page directory is `pd`. `palloc` is
      what `palloc_get_page` returned and `order` is the order in which the hash iterator
      visits the table. */
  function FrameGet(t: FrameTable, order: seq<Addr>, pd: PageDir, upage: Page, th: ThreadId,
                    palloc: Option<Addr>): (r: Acquired)
    requires Wf(t) && InTable(order, t)
    ensures Wf(r.table)
    ensures palloc.Some? ==> r.kpage == palloc && r.pd == pd
    ensures palloc.None? ==>
              r.kpage == Evict(t, order, upage, th, pd).victim && r.pd == Evict(t, order, upage, th, pd).pd
    ensures r.kpage.None? <==> palloc.None? && Owned(t, order, th) == []
    ensures r.kpage.None? ==> r.table == t && r.pd == pd
    ensures r.kpage.Some? ==> r.kpage.value in r.table
    ensures forall a | a in t :: a in r.table && r.table[a] == t[a]
    ensures palloc.None? ==> r.table == t
    ensures palloc.Some? ==> r.table.Keys == t.Keys + {palloc.value}
    ensures palloc.Some? && palloc.value !in t ==> r.table[palloc.value] == Frame(palloc.value, upage, th)
  {
    var kpage := if palloc.Some? then palloc else Evict(t, order, upage, th, pd).victim;
    var pd' := if palloc.Some? then pd else Evict(t, order, upage, th, pd).pd;
    if kpage.Some? then Acquired(kpage, HashInsert(t, Frame(kpage.value, upage, th)), pd')
    else Acquired(None, t, pd')
  }

  /** A page fresh from the allocator is registered for `upage` and the caller, so a lookup
      finds exactly that record, and freeing it restores the table. */
  lemma AcquireFreshThenFindAndFree(t: FrameTable, order: seq<Addr>, pd: PageDir, upage: Page,
                                    th: ThreadId, a: Addr)
    requires Wf(t) && InTable(order, t)
    requires a !in t
    ensures var r := FrameGet(t, order, pd, upage, th, Some(a));
            && FrameFind(r.table, a) == Some(Frame(a, upage, th))
            && FrameFree(r.table, a) == Freed(true, t)
  {
    var r := FrameGet(t, order, pd, upage, th, Some(a));
    assert r.table == HashInsert(t, Frame(a, upage, th));
    InsertThenFree(t, Frame(a, upage, th));
  }

  /** A page obtained by eviction keeps its old record: the insert finds the key present, so
      the table still maps the page to the victim's old user page, not to `upage`. */
  lemma EvictedFrameKeepsOldRecord(t: FrameTable, order: seq<Addr>, pd: PageDir, upage: Page,
                                   th: ThreadId)
    requires Wf(t) && InTable(order, t)
    requires FrameGet(t, order, pd, upage, th, None).kpage.Some?
    ensures var v := FrameGet(t, order, pd, upage, th, None).kpage.value;
            && FrameFind(FrameGet(t, order, pd, upage, th, None).table, v) == Some(t[v])
            && t[v].owner == th
            && (t[v].upage != upage ==>
                  FrameFind(FrameGet(t, order, pd, upage, th, None).table, v) != Some(Frame(v, upage, th)))
  {
  }

  /** After `frame_free(addr)`, a `frame_get` whose allocator returned some other page, or
      that fell back on eviction, does not bring a record for `addr` back: a lookup still
      misses. */
  lemma ReleasedStaysReleased(t: FrameTable, addr: Addr, order: seq<Addr>, pd: PageDir,
                              upage: Page, th: ThreadId, palloc: Option<Addr>)
    requires Wf(t)
    requires InTable(order, FrameFree(t, addr).table)
    requires palloc != Some(addr)
    ensures FrameFind(FrameGet(FrameFree(t, addr).table, order, pd, upage, th, palloc).table, addr).None?
  {
  }
}
