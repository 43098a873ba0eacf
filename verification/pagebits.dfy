/** The hardware accessed/dirty bits of one thread's page directory, and the NRU class
    that `get_class` derives from them. */
module PageBits {
  import opened Handles

  /** The two bits of a page table entry that the evictor reads and writes. */
  datatype Bits = Bits(accessed: bool, dirty: bool)

  /** A page directory reduced to those bits; a page absent from the map has no page table
      entry, and reads as clear. */
  type PageDir = map<Page, Bits>

  /** `pagedir_is_accessed`: false for a page with no page table entry. */
  predicate IsAccessed(pd: PageDir, page: Page) {
    page in pd && pd[page].accessed
  }

  /** `pagedir_is_dirty`: false for a page with no page table entry. */
  predicate IsDirty(pd: PageDir, page: Page) {
    page in pd && pd[page].dirty
  }

  /** `pagedir_set_accessed`: sets the accessed bit of an existing entry and nothing else;
      a page with no entry is left alone. */
  function SetAccessed(pd: PageDir, page: Page, accessed: bool): (r: PageDir)
    ensures r.Keys == pd.Keys
    ensures page in pd ==> IsAccessed(r, page) == accessed
    ensures page !in pd ==> r == pd
    ensures IsDirty(r, page) == IsDirty(pd, page)
    ensures forall p | p in pd && p != page :: r[p] == pd[p]
  {
    if page in pd then pd[page := pd[page].(accessed := accessed)] else pd
  }

  /** `get_class`: the NRU class of a page, 1 (best victim) to 4 (worst victim). */
  function GetClass(pd: PageDir, page: Page): (c: int)
    ensures 1 <= c <= 4
    ensures c == 1 <==> !IsAccessed(pd, page) && !IsDirty(pd, page)
    ensures c == 2 <==> IsAccessed(pd, page) && !IsDirty(pd, page)
    ensures c == 3 <==> !IsAccessed(pd, page) && IsDirty(pd, page)
    ensures c == 4 <==> IsAccessed(pd, page) && IsDirty(pd, page)
  {
    var dirty := IsDirty(pd, page);
    var accessed := IsAccessed(pd, page);
    if accessed then (if dirty then 4 else 2) else (if dirty then 3 else 1)
  }

  /** The bits a class stands for: the inverse of the class mapping. */
  function ClassBits(c: int): (b: Bits)
    requires 1 <= c <= 4
  {
    Bits(c == 2 || c == 4, c == 3 || c == 4)
  }

  /** The class determines both bits exactly: reading the bits back from the class gives
      what the page directory holds. */
  lemma ClassRoundTrip(pd: PageDir, page: Page)
    ensures ClassBits(GetClass(pd, page)) == Bits(IsAccessed(pd, page), IsDirty(pd, page))
  {
  }

  /** Every class is reached by exactly one combination of bits. */
  lemma ClassBijective(c: int, b: Bits)
    requires 1 <= c <= 4
    ensures GetClass(map[0 := ClassBits(c)], 0) == c
    ensures GetClass(map[0 := b], 0) == c <==> b == ClassBits(c)
  {
  }

  /** Clearing the accessed bit of a page demotes class 2 to 1 and class 4 to 3 and leaves
      classes 1 and 3 alone. */
  lemma ClearAccessedDemotes(pd: PageDir, page: Page)
    ensures GetClass(SetAccessed(pd, page, false), page) ==
      (match GetClass(pd, page) case 2 => 1 case 4 => 3 case c => c)
  {
  }

  /** Clearing the accessed bit twice is the same as clearing it once. */
  lemma ClearAccessedIdempotent(pd: PageDir, page: Page)
    ensures SetAccessed(SetAccessed(pd, page, false), page, false) == SetAccessed(pd, page, false)
  {
  }

  /** Clearing the accessed bit of a page whose bit is already clear changes nothing. */
  lemma ClearAccessedWhenClear(pd: PageDir, page: Page)
    ensures !IsAccessed(pd, page) ==> SetAccessed(pd, page, false) == pd
  {
    if page in pd && !pd[page].accessed {
      assert pd[page].(accessed := false) == pd[page];
    }
  }
}
