/** The frame table: a registry of the physical frames in use, keyed by their kernel
    address, with the lookup and removal operations of `frame.c`. */
module Frames {
  import opened Wrappers
  import opened Handles

  /** `struct frame`: one physical frame in use, the user page it backs and its owner. */
  datatype Frame = Frame(addr: Addr, upage: Page, owner: ThreadId)

  /** The hash table `frames`, one record per key. */
  type FrameTable = map<Addr, Frame>

  /** Every record is filed under its own address. The C hash table has no key apart from
      the record's `addr` field, so this holds by construction there. */
  predicate Wf(t: FrameTable) {
    forall a | a in t :: t[a].addr == a
  }

  /** `frame_init`: the table starts out empty. */
  function FrameInit(): (t: FrameTable)
    ensures Wf(t)
    ensures forall a: Addr :: a !in t
  {
    map[]
  }

  /** `frame_less`: records are ordered by address alone. */
  predicate FrameLess(a: Frame, b: Frame) {
    a.addr < b.addr
  }

  /** `frame_hash`: the hash of a record depends on its address alone (the mixing done by
      `hash_int` is not modelled). */
  function FrameHash(f: Frame): Addr {
    f.addr
  }

  /** Two records are the same element for the hash table when neither is less than the other. */
  predicate SameKey(a: Frame, b: Frame) {
    !FrameLess(a, b) && !FrameLess(b, a)
  }

  /** Key equality is address equality, whatever the other fields hold, and equal keys hash
      alike, as the hash table requires. */
  lemma SameKeyIsAddrEquality(a: Frame, b: Frame)
    ensures SameKey(a, b) <==> a.addr == b.addr
    ensures SameKey(a, b) ==> FrameHash(a) == FrameHash(b)
  {
  }

  /** `frame_less` is a strict total order on addresses. */
  lemma FrameLessStrictOrder(a: Frame, b: Frame, c: Frame)
    ensures !FrameLess(a, a)
    ensures FrameLess(a, b) && FrameLess(b, c) ==> FrameLess(a, c)
    ensures FrameLess(a, b) ==> !FrameLess(b, a)
    ensures a.addr != b.addr ==> FrameLess(a, b) || FrameLess(b, a)
  {
  }

  /** The probe record that `frame_find` and `frame_free` build: only its address is set. The
      other fields are uninitialized in the kernel; `HashFindIgnoresOtherFields` shows they do
      not matter. */
  function Probe(addr: Addr): Frame {
    Frame(addr, 0, 0)
  }

  /** `hash_find`: the record of the table that is the same key as `probe`, if any. */
  function HashFind(t: FrameTable, probe: Frame): (r: Option<Frame>)
    requires Wf(t)
    ensures r.Some? <==> exists a :: a in t && SameKey(t[a], probe)
    ensures r.Some? ==> probe.addr in t && r.value == t[probe.addr] && SameKey(r.value, probe)
  {
    if probe.addr in t then Some(t[probe.addr]) else None
  }

  /** Lookups depend on the probe's address only. */
  lemma HashFindIgnoresOtherFields(t: FrameTable, p: Frame, q: Frame)
    requires Wf(t)
    requires p.addr == q.addr
    ensures HashFind(t, p) == HashFind(t, q)
  {
  }

  /** `hash_insert`: adds `f` unless an element with the same key is already present, in which
      case the table keeps the old element. */
  function HashInsert(t: FrameTable, f: Frame): (r: FrameTable)
    requires Wf(t)
    ensures Wf(r)
    ensures r.Keys == t.Keys + {f.addr}
    ensures forall a | a in t :: r[a] == t[a]
    ensures f.addr !in t ==> r[f.addr] == f
  {
    match HashFind(t, f)
    case Some(_) => t
    case None => t[f.addr := f]
  }

  /** `frame_find`: the record for `addr`, or None; the table is not changed. */
  function FrameFind(t: FrameTable, addr: Addr): (r: Option<Frame>)
    requires Wf(t)
    ensures r.Some? <==> addr in t
    ensures r.Some? ==> r.value == t[addr] && r.value.addr == addr
  {
    HashFind(t, Probe(addr))
  }

  /** The outcome of `frame_free`: whether a record was found, and the table afterwards. */
  datatype Freed = Freed(found: bool, table: FrameTable)

  /** `frame_free`: removes the record for `addr` if there is one. */
  function FrameFree(t: FrameTable, addr: Addr): (r: Freed)
    requires Wf(t)
    ensures r.found <==> addr in t
    ensures !r.found ==> r.table == t
    ensures Wf(r.table)
    ensures r.table.Keys == t.Keys - {addr}
    ensures forall a | a in r.table :: r.table[a] == t[a]
    ensures |r.table| == if r.found then |t| - 1 else |t|
  {
    match HashFind(t, Probe(addr))
    case Some(frame) => Freed(true, t - {frame.addr})
    case None => Freed(false, t)
  }

  /** Freeing twice in a row: the second call finds nothing and changes nothing. */
  lemma FreeIdempotent(t: FrameTable, addr: Addr)
    requires Wf(t)
    ensures var once := FrameFree(t, addr).table;
            FrameFree(once, addr) == Freed(false, once)
  {
  }

  /** After a successful free, a lookup of the same address finds nothing. */
  lemma FreeThenFindMisses(t: FrameTable, addr: Addr)
    requires Wf(t)
    ensures FrameFind(FrameFree(t, addr).table, addr).None?
  {
  }

  /** Inserting a record under a new address and then freeing that address restores the table. */
  lemma InsertThenFree(t: FrameTable, f: Frame)
    requires Wf(t)
    requires f.addr !in t
    ensures FrameFind(HashInsert(t, f), f.addr) == Some(f)
    ensures FrameFree(HashInsert(t, f), f.addr) == Freed(true, t)
  {
  }
}
