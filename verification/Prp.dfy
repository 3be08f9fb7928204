/** Walking PRP lists (NVM Express 1.4, section 4.3), the part of `nvme_map_prp` in femu/dma.c
    that does not concern the controller memory buffer.  Host memory is a function from
    addresses to the 64-bit words stored there; it does not change during the walk. */
module Prps {
  import opened Wrappers
  import opened Arithmetic

  /** `ScatterGatherEntry`. */
  datatype Segment = Segment(base: nat, len: nat)

  /** The page size, a power of two in the code. */
  datatype Pages = Pages(size: nat) {
    predicate Ok() { size >= 16 && size % 8 == 0 }

    /** `max_prp_ents`: the number of entries in a page of PRPs. */
    function Ents(): (n: nat)
      requires Ok()
      ensures n >= 2
    {
      size / 8
    }

    /** An entry of a list must be the address of a page. */
    predicate Aligned(e: nat)
      requires Ok()
    {
      e != 0 && e % size == 0
    }
  }

  function Min(x: nat, y: nat): nat { if x < y then x else y }

  /** Number of pages that `len` bytes take from a page boundary on. */
  function PageCount(p: Pages, len: nat): nat
    requires p.Ok()
  {
    (len + p.size - 1) / p.size
  }

  lemma PageCountStep(p: Pages, len: nat)
    requires p.Ok()
    ensures PageCount(p, 0) == 0
    ensures len > 0 ==> PageCount(p, len) == 1 + PageCount(p, len - Min(len, p.size))
    ensures len > p.size <==> PageCount(p, len) >= 2
  {
    DivModUnique(0, p.size - 1, p.size);
    if len > p.size {
      OnePageMore(p, len);
      hide PageCount;
    } else if len > 0 {
      DivModUnique(1, len - 1, p.size);
    }
  }

  lemma OnePageMore(p: Pages, len: nat)
    requires p.Ok() && len > p.size
    ensures PageCount(p, len) == 1 + PageCount(p, len - p.size) && PageCount(p, len - p.size) >= 1
  {
    hide Pages.Ents;
    OneMore(p.size, len - 1);
  }

  lemma OneMore(n: nat, x: nat)
    requires x >= n > 0
    ensures (x + n) / n == 1 + x / n && x / n >= 1
  {
    DivModUnique(x / n + 1, x % n, n);
    assert (x / n + 1) * n == (x / n) * n + n;
    DivModUnique(1, 0, n);
    DivMonotone(n, x, n);
  }

  // ----- What a chained list means ----------------------------------------------------------------

  /** The first m of the data entries in a list at `base`: if a page of the list is not
      enough, its last entry is the address of the next page of the list. */
  function Entries(mem: nat -> nat, p: Pages, base: nat, m: nat): Option<seq<nat>>
    requires p.Ok()
    decreases m
  {
    if m <= p.Ents() then PageEntries(mem, p, base, 0, m)
    else
      var here := PageEntries(mem, p, base, 0, p.Ents() - 1);
      var next := mem(base + 8 * (p.Ents() - 1));
      if here.None? || !p.Aligned(next) then None
      else
        var rest := Entries(mem, p, next, m - (p.Ents() - 1));
        if rest.None? then None else Some(here.value + rest.value)
  }

  /** Entries i to n of one page of a list, if all are addresses of pages. */
  function PageEntries(mem: nat -> nat, p: Pages, base: nat, i: nat, n: nat): (r: Option<seq<nat>>)
    requires p.Ok() && i <= n
    ensures r.Some? ==> |r.value| == n - i && forall k :: 0 <= k < n - i ==> r.value[k] == mem(base + 8 * (i + k))
    decreases n - i
  {
    if i == n then Some([])
    else if !p.Aligned(mem(base + 8 * i)) then None
    else
      var rest := PageEntries(mem, p, base, i + 1, n);
      if rest.None? then None else Some([mem(base + 8 * i)] + rest.value)
  }

  /** Segments for `len` bytes in the given pages: all full but the last. */
  function Segments(p: Pages, pages: seq<nat>, len: nat): (r: seq<Segment>)
    ensures |r| == |pages|
    ensures forall k :: 0 <= k < |r| ==> r[k].base == pages[k]
    decreases |pages|
  {
    if pages == [] then []
    else [Segment(pages[0], Min(len, p.size))] + Segments(p, pages[1..], len - Min(len, p.size))
  }

  function AsSegments(p: Pages, pages: Option<seq<nat>>, len: nat): Option<seq<Segment>> {
    if pages.None? then None else Some(Segments(p, pages.value, len))
  }

  /** The whole transfer: PRP1, and PRP2 as an entry or as a list. */
  function Transfer(mem: nat -> nat, p: Pages, prp1: nat, prp2: nat, len: nat): Option<seq<Segment>>
    requires p.Ok()
  {
    var first := Min(len, p.size - prp1 % p.size);
    var rest := len - first;
    if prp1 == 0 || (rest > 0 && prp2 == 0) then None
    else if rest == 0 then Some([Segment(prp1, first)])
    else if rest <= p.size then
      if prp2 % p.size != 0 then None else Some([Segment(prp1, first), Segment(prp2, rest)])
    else
      var list := AsSegments(p, Entries(mem, p, prp2, PageCount(p, rest)), rest);
      if list.None? then None else Some([Segment(prp1, first)] + list.value)
  }

  // ----- Lists that do not start on a page boundary ------------------------------------------------

  /** Entries from `base` to the end of its page of memory. */
  function EntriesInPage(p: Pages, base: nat): (n: nat)
    requires p.Ok()
    ensures n <= p.Ents() && (base % p.size == 0 ==> n == p.Ents())
    ensures base % 8 == 0 ==> n >= 1
  {
    InPage(p, base);
    (p.size - base % p.size) / 8
  }

  lemma InPage(p: Pages, base: nat)
    requires p.Ok()
    ensures var n := (p.size - base % p.size) / 8; 0 <= n <= p.Ents() && (base % p.size == 0 ==> n == p.Ents())
    ensures base % 8 == 0 ==> (p.size - base % p.size) / 8 >= 1
  {
    if base % 8 == 0 { OffsetOfEight(p, base); }
    EndOfPage(p.size, base % p.size);
  }

  lemma OffsetOfEight(p: Pages, base: nat)
    requires p.Ok()
    ensures (base % p.size) % 8 == base % 8
  {
    hide Pages.Ents;
    EightEntries(p);
    RemainderOfEights(base, p.size, p.Ents());
  }

  lemma RemainderOfEights(x: nat, n: nat, e: nat)
    requires n == e * 8 && n > 0
    ensures Remainder(x, n) % 8 == x % 8
  {
    hide Quotient, Remainder;
    Divided(x, n);
    WholePages(Quotient(x, n), n, e, Remainder(x, n));
  }

  lemma Divided(x: nat, n: nat)
    requires n > 0
    ensures x == Quotient(x, n) * n + Remainder(x, n)
  {
  }

  lemma WholePages(q: nat, size: nat, e: nat, off: nat)
    requires size == e * 8
    ensures off % 8 == (q * size + off) % 8
  {
    TimesEight(q, e);
    EightsDropped(off, q * e);
  }

  lemma TimesEight(q: nat, e: nat)
    ensures q * (e * 8) == 8 * (q * e)
  {
  }

  lemma EightsDropped(off: nat, k: nat)
    ensures (off + 8 * k) % 8 == off % 8
  {
  }

  lemma EightEntries(p: Pages)
    requires p.Ok()
    ensures p.size == p.Ents() * 8
  {
  }

  lemma EndOfPage(size: nat, off: nat)
    requires size % 8 == 0 && off < size
    ensures 0 <= (size - off) / 8 <= size / 8 && (off % 8 == 0 ==> (size - off) / 8 >= 1)
  {
  }

  /** The list as the standard has it: the pointer to the next page of the list is the last
      entry in the page of memory in which this part of the list lies.  (The first part may
      start anywhere in its page, at a multiple of 8.) */
  function StandardEntries(mem: nat -> nat, p: Pages, base: nat, m: nat): Option<seq<nat>>
    requires p.Ok() && base % 8 == 0
    decreases m, base % p.size
  {
    var n := EntriesInPage(p, base);
    if m <= n then PageEntries(mem, p, base, 0, m)
    else
      var here := PageEntries(mem, p, base, 0, n - 1);
      var next := mem(base + 8 * (n - 1));
      if here.None? || !p.Aligned(next) then None
      else
        PageIsAligned(p, next);
        var rest := StandardEntries(mem, p, next, m - (n - 1));
        if rest.None? then None else Some(here.value + rest.value)
  }

  lemma PageIsAligned(p: Pages, base: nat)
    requires p.Ok() && base % p.size == 0
    ensures base % 8 == 0
  {
    OffsetOfEight(p, base);
  }

  /** From a page boundary on the code and the standard agree. */
  lemma {:induction false} AlignedIsStandard(mem: nat -> nat, p: Pages, base: nat, m: nat)
    requires p.Ok() && base % p.size == 0
    ensures base % 8 == 0 && StandardEntries(mem, p, base, m) == Entries(mem, p, base, m)
    decreases m
  {
    hide EntriesInPage, PageEntries;
    PageIsAligned(p, base);
    var next := mem(base + 8 * (p.Ents() - 1));
    if m > p.Ents() && p.Aligned(next) {
      AlignedIsStandard(mem, p, next, m - (p.Ents() - 1));
    }
  }

  /** Every entry is a page address. */
  lemma {:induction false} SomeEntries(mem: nat -> nat, p: Pages, base: nat, m: nat, k: nat)
    requires p.Ok() && (forall a: nat :: p.Aligned(mem(a))) && k < m && k < p.Ents() - 1
    ensures Entries(mem, p, base, m).Some? && |Entries(mem, p, base, m).value| == m
    ensures Entries(mem, p, base, m).value[k] == mem(base + 8 * k)
    decreases m
  {
    if m <= p.Ents() {
      SomePageEntries(mem, p, base, 0, m);
    } else {
      SomePageEntries(mem, p, base, 0, p.Ents() - 1);
      SomeEntries(mem, p, mem(base + 8 * (p.Ents() - 1)), m - (p.Ents() - 1), 0);
    }
  }

  lemma {:induction false} SomePageEntries(mem: nat -> nat, p: Pages, base: nat, i: nat, n: nat)
    requires p.Ok() && (forall a: nat :: p.Aligned(mem(a))) && i <= n
    ensures PageEntries(mem, p, base, i, n).Some?
    decreases n - i
  {
    if i < n { SomePageEntries(mem, p, base, i + 1, n); }
  }

  /** All entries name one page, except that one at address x names another. */
  function TwoPages(p: Pages, x: nat): nat -> nat {
    (a: nat) => PageAt(p, x, a)
  }

  function PageAt(p: Pages, x: nat, a: nat): nat {
    if a == x then 2 * p.size else p.size
  }

  lemma TwoPagesAligned(p: Pages, x: nat)
    requires p.Ok()
    ensures forall a: nat :: p.Aligned(TwoPages(p, x)(a))
  {
    DivModUnique(1, 0, p.size);
    DivModUnique(2, 0, p.size);
  }

  /** Where the standard has the pointer to the next page the code sees an ordinary entry. */
  lemma PointerIsMissed(p: Pages, base: nat, m: nat)
    requires p.Ok() && base % 8 == 0 && base % p.size != 0 && m > EntriesInPage(p, base)
    ensures var mem := TwoPages(p, base + 8 * (EntriesInPage(p, base) - 1));
            Entries(mem, p, base, m) != StandardEntries(mem, p, base, m)
  {
    hide EntriesInPage, Entries, PageEntries;
    var n := EntriesInPage(p, base);
    var x := base + 8 * (n - 1);
    var mem := TwoPages(p, x);
    PartOfPage(p, base);
    TwoPagesAligned(p, x);
    SomeEntries(mem, p, base, m, n - 1);
    SomePageEntries(mem, p, base, 0, n - 1);
    DivModUnique(2, 0, p.size);
    AlignedIsStandard(mem, p, 2 * p.size, m - (n - 1));
    SomeEntries(mem, p, 2 * p.size, m - (n - 1), 0);
  }

  /** The last entry of a page of memory is not at a page boundary. */
  lemma PartOfPage(p: Pages, base: nat)
    requires p.Ok() && base % 8 == 0 && base % p.size != 0
    ensures 1 <= EntriesInPage(p, base) < p.Ents() && (base + 8 * (EntriesInPage(p, base) - 1)) % p.size != 0
  {
    var off, n := base % p.size, EntriesInPage(p, base);
    assert base == (base / p.size) * p.size + off;
    assert off <= off + 8 * (n - 1) < p.size;
    DivModUnique(base / p.size, off + 8 * (n - 1), p.size);
  }

  /** The code decodes a list of m entries as the standard has it, whatever memory holds, if
      and only if the list starts on a page boundary or ends before the next one. */
  lemma ListIsStandard(p: Pages, base: nat, m: nat)
    requires p.Ok() && base % 8 == 0
    ensures (forall mem: nat -> nat :: Entries(mem, p, base, m) == StandardEntries(mem, p, base, m))
            <==> base % p.size == 0 || m <= EntriesInPage(p, base)
  {
    hide Entries, StandardEntries, EntriesInPage, TwoPages;
    if base % p.size == 0 {
      forall mem: nat -> nat ensures Entries(mem, p, base, m) == StandardEntries(mem, p, base, m) {
        AlignedIsStandard(mem, p, base, m);
      }
    } else if m <= EntriesInPage(p, base) {
      forall mem: nat -> nat ensures Entries(mem, p, base, m) == StandardEntries(mem, p, base, m) {
        BothInPage(mem, p, base, m);
      }
    } else {
      PointerIsMissed(p, base, m);
    }
  }

  lemma BothInPage(mem: nat -> nat, p: Pages, base: nat, m: nat)
    requires p.Ok() && base % 8 == 0 && m <= EntriesInPage(p, base)
    ensures Entries(mem, p, base, m) == StandardEntries(mem, p, base, m)
  {
    hide EntriesInPage;
  }

  // ----- Totals and page boundaries -----------------------------------------------------------------

  function Total(segs: seq<Segment>): nat {
    if segs == [] then 0 else segs[0].len + Total(segs[1..])
  }

  lemma {:induction false} TotalAppend(a: seq<Segment>, b: seq<Segment>)
    ensures Total(a + b) == Total(a) + Total(b)
  {
    if a == [] {
      assert a + b == b;
    } else {
      TotalAppend(a[1..], b);
      assert (a + b)[1..] == a[1..] + b;
    }
  }

  /** No segment crosses a page boundary and none is empty. */
  ghost predicate InPages(p: Pages, segs: seq<Segment>)
    requires p.Ok()
  {
    forall k :: 0 <= k < |segs| ==> segs[k].len > 0 && segs[k].base % p.size + segs[k].len <= p.size
  }

  lemma {:induction false} SegmentsFit(p: Pages, pages: seq<nat>, len: nat)
    requires p.Ok() && |pages| == PageCount(p, len) && forall k :: 0 <= k < |pages| ==> pages[k] % p.size == 0
    ensures Total(Segments(p, pages, len)) == len && InPages(p, Segments(p, pages, len))
    decreases |pages|
  {
    PageCountStep(p, len);
    if pages != [] {
      SegmentsFit(p, pages[1..], len - Min(len, p.size));
    }
  }

  lemma {:induction false} EntriesAligned(mem: nat -> nat, p: Pages, base: nat, m: nat)
    requires p.Ok() && Entries(mem, p, base, m).Some?
    ensures var e := Entries(mem, p, base, m).value; |e| == m && forall k :: 0 <= k < m ==> p.Aligned(e[k])
    decreases m
  {
    if m <= p.Ents() {
      PageEntriesAligned(mem, p, base, 0, m);
    } else {
      PageEntriesAligned(mem, p, base, 0, p.Ents() - 1);
      EntriesAligned(mem, p, mem(base + 8 * (p.Ents() - 1)), m - (p.Ents() - 1));
    }
  }

  lemma {:induction false} PageEntriesAligned(mem: nat -> nat, p: Pages, base: nat, i: nat, n: nat)
    requires p.Ok() && i <= n && PageEntries(mem, p, base, i, n).Some?
    ensures forall k :: 0 <= k < n - i ==> p.Aligned(PageEntries(mem, p, base, i, n).value[k])
    decreases n - i
  {
    if i < n {
      PageEntriesAligned(mem, p, base, i + 1, n);
    }
  }

  /** A successful mapping covers exactly `len` bytes, page by page.  (The size assertion of
      `nvme_rw`.) */
  lemma TransferFits(mem: nat -> nat, p: Pages, prp1: nat, prp2: nat, len: nat)
    requires p.Ok() && len > 0 && Transfer(mem, p, prp1, prp2, len).Some?
    ensures var segs := Transfer(mem, p, prp1, prp2, len).value; Total(segs) == len && InPages(p, segs)
  {
    hide Pages.Ents, Entries, PageCount, Segments;
    var first := Min(len, p.size - prp1 % p.size);
    var rest := len - first;
    if rest > p.size {
      EntriesAligned(mem, p, prp2, PageCount(p, rest));
      var e := Entries(mem, p, prp2, PageCount(p, rest)).value;
      SegmentsFit(p, e, rest);
      assert ([Segment(prp1, first)] + Segments(p, e, rest))[1..] == Segments(p, e, rest);
    } else if rest > 0 {
      assert [Segment(prp1, first), Segment(prp2, rest)][1..] == [Segment(prp2, rest)];
      assert Total([Segment(prp2, rest)]) == rest;
    }
  }

  // ----- The address of every byte -------------------------------------------------------------------

  /** Where byte k of the segments, in order, lies in host memory. */
  ghost function AddressOf(segs: seq<Segment>, k: nat): nat
    requires k < Total(segs)
  {
    if k < segs[0].len then segs[0].base + k else AddressOf(segs[1..], k - segs[0].len)
  }

  /** Byte k of full pages lies in page k / size. */
  lemma {:induction false} PagesAddress(p: Pages, pages: seq<nat>, len: nat, k: nat)
    requires p.Ok() && |pages| == PageCount(p, len) && k < len && k < Total(Segments(p, pages, len))
    ensures Quotient(k, p.size) < |pages|
    ensures AddressOf(Segments(p, pages, len), k) == pages[Quotient(k, p.size)] + Remainder(k, p.size)
    decreases |pages|
  {
    hide Pages.Ents, PageCount, Quotient, Remainder;
    PageCountStep(p, len);
    assert pages != [];
    FirstOfPages(p, pages, len);
    PageOn(p.size, k);
    if k >= p.size {
      PagesAddress(p, pages[1..], len - p.size, k - p.size);
    }
  }

  lemma FirstOfPages(p: Pages, pages: seq<nat>, len: nat)
    requires pages != []
    ensures var segs := Segments(p, pages, len);
            && segs[0] == Segment(pages[0], Min(len, p.size))
            && segs[1..] == Segments(p, pages[1..], len - Min(len, p.size))
            && Total(segs) == Min(len, p.size) + Total(segs[1..])
  {
  }

  lemma PageOn(n: nat, k: nat)
    requires n > 0
    ensures k < n ==> Quotient(k, n) == 0 && Remainder(k, n) == k
    ensures k >= n ==> Quotient(k, n) == Quotient(k - n, n) + 1 && Remainder(k, n) == Remainder(k - n, n)
  {
    if k < n {
      DivModUnique(0, k, n);
    } else {
      var q, r := (k - n) / n, (k - n) % n;
      assert k == (q + 1) * n + r;
      DivModUnique(q + 1, r, n);
    }
  }

  /** The i-th page of a list, each but the first named by the last word of the page before. */
  ghost function ListPage(mem: nat -> nat, p: Pages, base: nat, i: nat): nat
    requires p.Ok()
  {
    if i == 0 then base else mem(ListPage(mem, p, base, i - 1) + 8 * (p.Ents() - 1))
  }

  /** The number of entries on the pages before the i-th. */
  ghost function Before(p: Pages, i: nat): nat
    requires p.Ok()
  {
    i * (p.Ents() - 1)
  }

  lemma BeforeNext(p: Pages, i: nat)
    requires p.Ok()
    ensures Before(p, 0) == 0 && Before(p, i + 1) == Before(p, i) + p.Ents() - 1
  {
    hide Pages.Ents;
    assert (i + 1) * (p.Ents() - 1) == i * (p.Ents() - 1) + (p.Ents() - 1);
  }

  /** A list of m entries has an i-th page: those before it do not hold them all. */
  ghost predicate HasPage(p: Pages, m: nat, i: nat)
    requires p.Ok()
  {
    i == 0 || m > Before(p, i - 1) + p.Ents()
  }

  /** Entry j of m is on the i-th page: pages that have a further page after them hold one
      entry less than they have words. */
  ghost predicate EntryOnPage(p: Pages, m: nat, j: nat, i: nat)
    requires p.Ok()
  {
    HasPage(p, m, i) && Before(p, i) <= j < m && (j < Before(p, i + 1) || !HasPage(p, m, i + 1))
  }

  /** e is entry j of the list of m entries at `base`, as it is in memory. */
  ghost predicate IsEntry(mem: nat -> nat, p: Pages, base: nat, m: nat, j: nat, e: nat)
    requires p.Ok()
  {
    exists i: nat :: EntryOnPage(p, m, j, i) && e == mem(ListPage(mem, p, base, i) + 8 * (j - Before(p, i)))
  }

  lemma {:induction false} ListPageOn(mem: nat -> nat, p: Pages, base: nat, i: nat)
    requires p.Ok()
    ensures ListPage(mem, p, mem(base + 8 * (p.Ents() - 1)), i) == ListPage(mem, p, base, i + 1)
  {
    hide Pages.Ents;
    if i > 0 { ListPageOn(mem, p, base, i - 1); }
  }

  /** The entries that the walk finds are those in memory. */
  lemma {:induction false} EntriesInMemory(mem: nat -> nat, p: Pages, base: nat, m: nat, j: nat)
    requires p.Ok() && Entries(mem, p, base, m).Some? && j < m
    ensures |Entries(mem, p, base, m).value| == m
    ensures IsEntry(mem, p, base, m, j, Entries(mem, p, base, m).value[j])
    decreases m
  {
    hide Pages.Ents, Pages.Aligned, IsEntry;
    EntriesAligned(mem, p, base, m);
    var e, c := Entries(mem, p, base, m).value[j], p.Ents() - 1;
    if m <= p.Ents() {
      OnFirstPage(mem, p, base, m, j, e);
    } else {
      var next := mem(base + 8 * c);
      EntriesAligned(mem, p, next, m - c);
      if j < c {
        OnFirstPage(mem, p, base, m, j, e);
      } else {
        EntriesInMemory(mem, p, next, m - c, j - c);
        OnLaterPage(mem, p, base, m, j, e);
      }
    }
  }

  lemma OnFirstPage(mem: nat -> nat, p: Pages, base: nat, m: nat, j: nat, e: nat)
    requires p.Ok() && j < m && (j < p.Ents() - 1 || m <= p.Ents()) && e == mem(base + 8 * j)
    ensures IsEntry(mem, p, base, m, j, e)
  {
    hide Pages.Ents, Before;
    BeforeNext(p, 0);
    assert EntryOnPage(p, m, j, 0);
  }

  lemma OnLaterPage(mem: nat -> nat, p: Pages, base: nat, m: nat, j: nat, e: nat)
    requires p.Ok() && p.Ents() < m && p.Ents() - 1 <= j < m
    requires IsEntry(mem, p, mem(base + 8 * (p.Ents() - 1)), m - (p.Ents() - 1), j - (p.Ents() - 1), e)
    ensures IsEntry(mem, p, base, m, j, e)
  {
    hide Pages.Ents, ListPage, Before, HasPage;
    var c := p.Ents() - 1;
    var i: nat :| EntryOnPage(p, m - c, j - c, i)
                  && e == mem(ListPage(mem, p, mem(base + 8 * c), i) + 8 * (j - c - Before(p, i)));
    ListPageOn(mem, p, base, i);
    BeforeNext(p, i);
    BeforeNext(p, i + 1);
    LaterHasPage(p, m, i);
    LaterHasPage(p, m, i + 1);
    assert EntryOnPage(p, m, j, i + 1);
  }

  lemma LaterHasPage(p: Pages, m: nat, i: nat)
    requires p.Ok() && p.Ents() < m
    ensures HasPage(p, m - (p.Ents() - 1), i) <==> HasPage(p, m, i + 1)
  {
    hide Pages.Ents, Before;
    BeforeNext(p, if i > 0 then i - 1 else 0);
  }

  /** The number of bytes from address a to the end of its page. */
  function LeftInPage(p: Pages, a: nat): (n: nat)
    requires p.Ok()
    ensures 1 <= n <= p.size
  {
    p.size - a % p.size
  }

  /** Byte k of a transfer of len bytes is to lie at address a: from PRP1 on to the end of its
      page; then, if one more page is enough, from PRP2 on; and else in the page named by the
      entry of the list at PRP2 that the distance selects. */
  ghost predicate ByteLiesAt(mem: nat -> nat, p: Pages, prp1: nat, prp2: nat, len: nat, k: nat, a: nat)
    requires p.Ok()
  {
    var first := LeftInPage(p, prp1);
    if k < first then a == prp1 + k
    else if len - first <= p.size then a == prp2 + (k - first)
    else
      var off := Remainder(k - first, p.size);
      a >= off && IsEntry(mem, p, prp2, PageCount(p, len - first), Quotient(k - first, p.size), a - off)
  }

  /** The address of every byte of a successful mapping. */
  lemma ByteAddress(mem: nat -> nat, p: Pages, prp1: nat, prp2: nat, len: nat, k: nat)
    requires p.Ok() && k < len && Transfer(mem, p, prp1, prp2, len).Some?
    ensures Total(Transfer(mem, p, prp1, prp2, len).value) == len
    ensures ByteLiesAt(mem, p, prp1, prp2, len, k, AddressOf(Transfer(mem, p, prp1, prp2, len).value, k))
  {
    hide Pages.Ents, Pages.Ok, Entries, Segments, IsEntry, PageCount, InPages, Transfer, LeftInPage, Quotient, Remainder;
    TransferFits(mem, p, prp1, prp2, len);
    var first, segs := LeftInPage(p, prp1), Transfer(mem, p, prp1, prp2, len).value;
    PartsOfTransfer(mem, p, prp1, prp2, len);
    if k >= first {
      var rest := len - first;
      if rest <= p.size {
        assert segs[1..] == [Segment(prp2, rest)];
      } else {
        var m := PageCount(p, rest);
        EntriesAligned(mem, p, prp2, m);
        var e := Entries(mem, p, prp2, m).value;
        PagesAddress(p, e, rest, k - first);
        EntriesInMemory(mem, p, prp2, m, Quotient(k - first, p.size));
      }
    }
  }

  lemma PartsOfTransfer(mem: nat -> nat, p: Pages, prp1: nat, prp2: nat, len: nat)
    requires p.Ok() && len > 0 && Transfer(mem, p, prp1, prp2, len).Some?
    ensures var first, segs := LeftInPage(p, prp1), Transfer(mem, p, prp1, prp2, len).value;
            && |segs| > 0 && segs[0] == Segment(prp1, Min(len, first))
            && (0 < len - first <= p.size ==> segs[1..] == [Segment(prp2, len - first)])
            && (len - first > p.size ==>
                  var list := Entries(mem, p, prp2, PageCount(p, len - first));
                  list.Some? && segs[1..] == Segments(p, list.value, len - first))
  {
    hide Entries, Pages.Ents, PageCount, Segments;
  }

  /** The segments hold len bytes in all, each at its address. */
  ghost predicate AllBytesLie(mem: nat -> nat, p: Pages, prp1: nat, prp2: nat, len: nat, segs: seq<Segment>)
    requires p.Ok()
  {
    Total(segs) == len && forall k: nat :: k < len ==> ByteLiesAt(mem, p, prp1, prp2, len, k, AddressOf(segs, k))
  }

  lemma AllBytes(mem: nat -> nat, p: Pages, prp1: nat, prp2: nat, len: nat)
    requires p.Ok()
    ensures len > 0 && Transfer(mem, p, prp1, prp2, len).Some? ==>
              AllBytesLie(mem, p, prp1, prp2, len, Transfer(mem, p, prp1, prp2, len).value)
  {
    hide Transfer, Total, ByteLiesAt, AddressOf, InPages;
    var segs := Transfer(mem, p, prp1, prp2, len);
    if len > 0 && segs.Some? {
      TransferFits(mem, p, prp1, prp2, len);
      forall k: nat | k < len ensures ByteLiesAt(mem, p, prp1, prp2, len, k, AddressOf(segs.value, k)) {
        ByteAddress(mem, p, prp1, prp2, len, k);
      }
    }
  }

  // ----- What is refused -----------------------------------------------------------------------------

  /** Word k of the i-th page of a list of m entries is used, as an entry or as the address of
      the next page. */
  ghost predicate WordUsed(p: Pages, m: nat, i: nat, k: nat)
    requires p.Ok()
  {
    HasPage(p, m, i) && k < p.Ents() && Before(p, i) + k < m
  }

  /** A word that is used is 0 or no page address. */
  ghost predicate BadWord(mem: nat -> nat, p: Pages, base: nat, m: nat, i: nat, k: nat)
    requires p.Ok()
  {
    WordUsed(p, m, i, k)
    && (mem(ListPage(mem, p, base, i) + 8 * k) == 0 || mem(ListPage(mem, p, base, i) + 8 * k) % p.size != 0)
  }

  ghost predicate HasBadWord(mem: nat -> nat, p: Pages, base: nat, m: nat)
    requires p.Ok()
  {
    exists i: nat, k: nat :: BadWord(mem, p, base, m, i, k)
  }

  lemma {:induction false} PageRefused(mem: nat -> nat, p: Pages, base: nat, i: nat, n: nat)
    requires p.Ok() && i <= n
    ensures PageEntries(mem, p, base, i, n).None? <==>
            exists k :: i <= k < n && (mem(base + 8 * k) == 0 || mem(base + 8 * k) % p.size != 0)
    decreases n - i
  {
    hide Pages.Ents;
    if i < n {
      PageRefused(mem, p, base, i + 1, n);
    }
  }

  /** A list is refused exactly if one of the words used is 0 or no page address. */
  lemma {:induction false} ListRefused(mem: nat -> nat, p: Pages, base: nat, m: nat)
    requires p.Ok()
    ensures Entries(mem, p, base, m).None? <==> HasBadWord(mem, p, base, m)
    decreases m
  {
    hide Pages.Ents, BadWord, PageEntries;
    var c := p.Ents() - 1;
    if m <= p.Ents() {
      PageRefused(mem, p, base, 0, m);
      OnlyPage(mem, p, base, m);
    } else {
      var next := mem(base + 8 * c);
      PageRefused(mem, p, base, 0, c);
      ListRefused(mem, p, next, m - c);
      FirstOrLater(mem, p, base, m);
    }
  }

  lemma OnlyPage(mem: nat -> nat, p: Pages, base: nat, m: nat)
    requires p.Ok() && m <= p.Ents()
    ensures HasBadWord(mem, p, base, m) <==>
            exists k :: 0 <= k < m && (mem(base + 8 * k) == 0 || mem(base + 8 * k) % p.size != 0)
  {
    hide Pages.Ents, Before;
    BeforeNext(p, 0);
    if HasBadWord(mem, p, base, m) {
      var i: nat, k: nat :| BadWord(mem, p, base, m, i, k);
      assert i == 0;
    }
    if k :| 0 <= k < m && (mem(base + 8 * k) == 0 || mem(base + 8 * k) % p.size != 0) {
      assert BadWord(mem, p, base, m, 0, k);
    }
  }

  lemma LaterWord(mem: nat -> nat, p: Pages, base: nat, m: nat, i: nat, k: nat)
    requires p.Ok() && p.Ents() < m
    ensures BadWord(mem, p, mem(base + 8 * (p.Ents() - 1)), m - (p.Ents() - 1), i, k) <==> BadWord(mem, p, base, m, i + 1, k)
  {
    hide Pages.Ents, HasPage, ListPage, Before;
    LaterHasPage(p, m, i);
    ListPageOn(mem, p, base, i);
    BeforeNext(p, i);
  }

  lemma FirstWord(mem: nat -> nat, p: Pages, base: nat, m: nat, k: nat)
    requires p.Ok() && p.Ents() < m
    ensures BadWord(mem, p, base, m, 0, k) <==>
            k < p.Ents() && (mem(base + 8 * k) == 0 || mem(base + 8 * k) % p.size != 0)
  {
    hide Pages.Ents, Before;
    BeforeNext(p, 0);
  }

  lemma FirstOrLater(mem: nat -> nat, p: Pages, base: nat, m: nat)
    requires p.Ok() && p.Ents() < m
    ensures var c := p.Ents() - 1;
            HasBadWord(mem, p, base, m) <==>
            || (exists k :: 0 <= k < c && (mem(base + 8 * k) == 0 || mem(base + 8 * k) % p.size != 0))
            || !p.Aligned(mem(base + 8 * c)) || HasBadWord(mem, p, mem(base + 8 * c), m - c)
  {
    hide Pages.Ents, BadWord;
    var c := p.Ents() - 1;
    if HasBadWord(mem, p, base, m) {
      var i: nat, k: nat :| BadWord(mem, p, base, m, i, k);
      if i == 0 { FirstWord(mem, p, base, m, k); } else { LaterWord(mem, p, base, m, i - 1, k); }
    }
    if k :| 0 <= k < c && (mem(base + 8 * k) == 0 || mem(base + 8 * k) % p.size != 0) {
      FirstWord(mem, p, base, m, k);
      assert BadWord(mem, p, base, m, 0, k);
    }
    FirstWord(mem, p, base, m, c);
    if !p.Aligned(mem(base + 8 * c)) {
      assert BadWord(mem, p, base, m, 0, c);
    }
    if HasBadWord(mem, p, mem(base + 8 * c), m - c) {
      var i: nat, k: nat :| BadWord(mem, p, mem(base + 8 * c), m - c, i, k);
      LaterWord(mem, p, base, m, i, k);
      assert BadWord(mem, p, base, m, i + 1, k);
    }
  }

  /** Exactly which pointers are refused: a PRP1 of 0; and, with more than the page of PRP1 to
      transfer, a PRP2 of 0, or one that is no page address if one more page is enough, or else
      one that names a list with a word that is 0 or no page address.  (An unaligned PRP1, and an
      unaligned list, are not refused.) */
  lemma RefusedExactly(mem: nat -> nat, p: Pages, prp1: nat, prp2: nat, len: nat)
    requires p.Ok()
    ensures var rest := len - LeftInPage(p, prp1);
            Transfer(mem, p, prp1, prp2, len).None? <==>
            || prp1 == 0
            || (rest > 0 && prp2 == 0)
            || (0 < rest <= p.size && prp2 % p.size != 0)
            || (rest > p.size && HasBadWord(mem, p, prp2, PageCount(p, rest)))
  {
    hide Pages.Ents, Entries, Segments, HasBadWord, PageCount;
    var rest := len - LeftInPage(p, prp1);
    if rest > p.size {
      ListRefused(mem, p, prp2, PageCount(p, rest));
    }
  }

  // ----- The walk -----------------------------------------------------------------------------------

  /** What the loop still has to add from entry i of the list page at `base` on. */
  function Walk(mem: nat -> nat, p: Pages, base: nat, i: nat, len: nat): Option<seq<Segment>>
    requires p.Ok() && i <= p.Ents() && (i == p.Ents() ==> len == 0)
    decreases len, if i == p.Ents() - 1 then 1 else 0
  {
    if len == 0 then Some([])
    else
      var e := mem(base + 8 * i);
      if !p.Aligned(e) then None
      else if i == p.Ents() - 1 && len > p.size then Walk(mem, p, e, 0, len)
      else
        var rest := Walk(mem, p, base, i + 1, len - Min(len, p.size));
        if rest.None? then None else Some([Segment(e, Min(len, p.size))] + rest.value)
  }

  lemma WalkUnfolds(mem: nat -> nat, p: Pages, base: nat, i: nat, len: nat)
    requires p.Ok() && i < p.Ents() && len > 0
    ensures var e := mem(base + 8 * i);
            && (!p.Aligned(e) ==> Walk(mem, p, base, i, len).None?)
            && (p.Aligned(e) && i == p.Ents() - 1 && len > p.size ==>
                  Walk(mem, p, base, i, len) == Walk(mem, p, e, 0, len))
            && (p.Aligned(e) && !(i == p.Ents() - 1 && len > p.size) ==>
                  && (i + 1 == p.Ents() ==> len - Min(len, p.size) == 0)
                  && var rest := Walk(mem, p, base, i + 1, len - Min(len, p.size));
                     Walk(mem, p, base, i, len)
                     == if rest.None? then None else Some([Segment(e, Min(len, p.size))] + rest.value))
  {
  }

  lemma SegmentsOf(p: Pages, e: nat, pages: seq<nat>, len: nat)
    ensures Segments(p, [e] + pages, len) == [Segment(e, Min(len, p.size))] + Segments(p, pages, len - Min(len, p.size))
  {
    assert ([e] + pages)[1..] == pages;
  }

  /** The entries from i on of the page at `base` and of the pages after it. */
  function EntriesFrom(mem: nat -> nat, p: Pages, base: nat, i: nat, m: nat): Option<seq<nat>>
    requires p.Ok() && i < p.Ents()
  {
    if i + m <= p.Ents() then PageEntries(mem, p, base, i, i + m)
    else
      var here := PageEntries(mem, p, base, i, p.Ents() - 1);
      var next := mem(base + 8 * (p.Ents() - 1));
      if here.None? || !p.Aligned(next) then None
      else
        var rest := Entries(mem, p, next, m - (p.Ents() - 1 - i));
        if rest.None? then None else Some(here.value + rest.value)
  }

  lemma EntriesFromStep(mem: nat -> nat, p: Pages, base: nat, i: nat, m: nat)
    requires p.Ok() && i + 1 < p.Ents() && m > 0
    ensures var e, rest := mem(base + 8 * i), EntriesFrom(mem, p, base, i + 1, m - 1);
            EntriesFrom(mem, p, base, i, m)
            == if !p.Aligned(e) || rest.None? then None else Some([e] + rest.value)
  {
    if i + m > p.Ents() {
      var here := PageEntries(mem, p, base, i + 1, p.Ents() - 1);
      var rest := Entries(mem, p, mem(base + 8 * (p.Ents() - 1)), m - (p.Ents() - 1 - i));
      if here.Some? && rest.Some? {
        assert [mem(base + 8 * i)] + (here.value + rest.value) == ([mem(base + 8 * i)] + here.value) + rest.value;
      }
    }
  }

  lemma NothingToWalk(mem: nat -> nat, p: Pages, base: nat, i: nat)
    requires p.Ok() && i < p.Ents()
    ensures PageCount(p, 0) == 0 && Walk(mem, p, base, i, 0) == Some([])
    ensures AsSegments(p, EntriesFrom(mem, p, base, i, 0), 0) == Some([])
  {
    hide PageCount, Pages.Ents, Pages.Aligned;
    PageCountStep(p, 0);
    assert Segments(p, [], 0) == [];
  }

  lemma LastEntry(mem: nat -> nat, p: Pages, base: nat)
    requires p.Ok()
    ensures var e := mem(base + 8 * (p.Ents() - 1));
            EntriesFrom(mem, p, base, p.Ents() - 1, 1) == if p.Aligned(e) then Some([e] + []) else None
  {
    PageEntriesOne(mem, p, base, p.Ents() - 1);
  }

  /** The walk finds the entries that the chained list means. */
  lemma {:induction false} WalkIsEntries(mem: nat -> nat, p: Pages, base: nat, i: nat, len: nat)
    requires p.Ok() && i < p.Ents()
    ensures Walk(mem, p, base, i, len) == AsSegments(p, EntriesFrom(mem, p, base, i, PageCount(p, len)), len)
    decreases len, if i == p.Ents() - 1 then 1 else 0
  {
    hide Walk, PageCount, Segments, EntriesFrom;
    PageCountStep(p, len);
    if len == 0 {
      NothingToWalk(mem, p, base, i);
    } else {
      WalkUnfolds(mem, p, base, i, len);
      var e, m, left := mem(base + 8 * i), PageCount(p, len), len - Min(len, p.size);
      if i == p.Ents() - 1 && len > p.size {
        if p.Aligned(e) {
          WalkIsEntries(mem, p, e, 0, len);
          FromStart(mem, p, e, m);
        }
        ChainAtEnd(mem, p, base, m);
      } else if i == p.Ents() - 1 {
        SegmentsOf(p, e, [], len);
        LastEntry(mem, p, base);
        NothingLeft(mem, p, base, p.Ents());
        assert m == 1 && left == 0;
      } else {
        WalkIsEntries(mem, p, base, i + 1, left);
        EntriesFromStep(mem, p, base, i, m);
        var rest := EntriesFrom(mem, p, base, i + 1, m - 1);
        if rest.Some? {
          SegmentsOf(p, e, rest.value, len);
        }
      }
    }
  }

  lemma NothingLeft(mem: nat -> nat, p: Pages, base: nat, i: nat)
    requires p.Ok() && i <= p.Ents()
    ensures Walk(mem, p, base, i, 0) == Some([]) && Segments(p, [], 0) == []
  {
  }

  /** At the last entry of a page with more than one page to go, the list goes on elsewhere. */
  lemma ChainAtEnd(mem: nat -> nat, p: Pages, base: nat, m: nat)
    requires p.Ok() && m >= 2
    ensures var e := mem(base + 8 * (p.Ents() - 1));
            EntriesFrom(mem, p, base, p.Ents() - 1, m) == if p.Aligned(e) then Entries(mem, p, e, m) else None
  {
    hide Entries;
    assert PageEntries(mem, p, base, p.Ents() - 1, p.Ents() - 1) == Some([]);
    var rest := Entries(mem, p, mem(base + 8 * (p.Ents() - 1)), m);
    if rest.Some? {
      assert [] + rest.value == rest.value;
    }
  }

  lemma PageEntriesOne(mem: nat -> nat, p: Pages, base: nat, i: nat)
    requires p.Ok()
    ensures PageEntries(mem, p, base, i, i + 1)
            == if p.Aligned(mem(base + 8 * i)) then Some([mem(base + 8 * i)] + []) else None
  {
  }

  lemma FromStart(mem: nat -> nat, p: Pages, base: nat, m: nat)
    requires p.Ok()
    ensures EntriesFrom(mem, p, base, 0, m) == Entries(mem, p, base, m)
  {
  }

  lemma WalkIsList(mem: nat -> nat, p: Pages, base: nat, len: nat)
    requires p.Ok()
    ensures Walk(mem, p, base, 0, len) == AsSegments(p, Entries(mem, p, base, PageCount(p, len)), len)
  {
    WalkIsEntries(mem, p, base, 0, len);
    FromStart(mem, p, base, PageCount(p, len));
  }

  // ----- nvme_map_prp ----------------------------------------------------------------------------------

  /** `QEMUSGList`. */
  class SgList {
    var sg: seq<Segment>
    var size: nat

    ghost predicate Valid()
      reads this
    {
      size == Total(sg)
    }

    constructor ()
      ensures Valid() && sg == []
    {
      sg, size := [], 0;
    }

    /** `qemu_sglist_add`. */
    method Add(base: nat, len: nat)
      requires Valid()
      modifies this
      ensures Valid() && sg == old(sg) + [Segment(base, len)]
    {
      TotalAppend(sg, [Segment(base, len)]);
      sg := sg + [Segment(base, len)];
      size := size + len;
    }
  }

  /** The list buffer holds n entries read from `base`. */
  ghost predicate Fetched(mem: nat -> nat, base: nat, list: seq<nat>, n: nat) {
    |list| == n && forall k :: 0 <= k < n ==> list[k] == mem(base + 8 * k)
  }

  /** `nvme_addr_read` of n entries. */
  method FetchEntries(mem: nat -> nat, base: nat, n: nat) returns (list: seq<nat>)
    ensures Fetched(mem, base, list, n)
  {
    list := seq(n, k requires 0 <= k < n => mem(base + 8 * k));
  }

  lemma FetchedAt(mem: nat -> nat, base: nat, list: seq<nat>, n: nat, i: nat)
    requires Fetched(mem, base, list, n) && i < n
    ensures |list| == n && list[i] == mem(base + 8 * i)
  {
  }

  /** The state of the loop of `nvme_map_prp`: entry i of the list page at `base` is next, and
      the rest of that page, as far as it is needed, has been fetched. */
  ghost predicate AtEntry(mem: nat -> nat, p: Pages, base: nat, list: seq<nat>, i: nat, len: nat)
    requires p.Ok()
  {
    i <= p.Ents() && (len == 0 || i < p.Ents()) && Fetched(mem, base, list, Min(p.Ents(), i + PageCount(p, len)))
  }

  lemma EntryFetched(mem: nat -> nat, p: Pages, base: nat, list: seq<nat>, i: nat, len: nat)
    requires p.Ok() && AtEntry(mem, p, base, list, i, len) && len > 0
    ensures i < p.Ents() && i < |list| && list[i] == mem(base + 8 * i)
    ensures !(i == p.Ents() - 1 && len > p.size) ==> AtEntry(mem, p, base, list, i + 1, len - Min(len, p.size))
  {
    hide PageCount, Fetched;
    PageCountStep(p, len);
    FetchedAt(mem, base, list, Min(p.Ents(), i + PageCount(p, len)), i);
  }

  /** The end of a page of the list: its last entry leads to the next page. */
  method NextListPage(mem: nat -> nat, p: Pages, ent: nat, len: nat) returns (list: seq<nat>)
    requires p.Ok() && len > p.size
    ensures AtEntry(mem, p, ent, list, 0, len)
  {
    var nents := PageCount(p, len);
    list := FetchEntries(mem, ent, Min(p.Ents(), nents));
  }

  /** The loop of `nvme_map_prp` over a list.  Every entry it uses has been fetched. */
  method MapList(mem: nat -> nat, p: Pages, prp2: nat, len0: nat, qsg: SgList) returns (ok: bool)
    requires p.Ok() && qsg.Valid() && len0 > p.size
    modifies qsg
    ensures qsg.Valid()
    ensures var list := AsSegments(p, Entries(mem, p, prp2, PageCount(p, len0)), len0);
            ok == list.Some? && (ok ==> qsg.sg == old(qsg.sg) + list.value)
  {
    hide Walk, Entries, EntriesFrom, PageEntries, Segments, AsSegments, PageCount, Pages.Aligned, Prefixed, Fetched,
         AtEntry, SgList.Valid, Total;
    var len: nat, i: nat := len0, 0;
    var list := NextListPage(mem, p, prp2, len);
    ghost var base: nat, was, added, goal := prp2, qsg.sg, [], Walk(mem, p, prp2, 0, len0);
    NothingAdded(goal);
    WalkIsList(mem, p, prp2, len0);
    while len != 0
      invariant i <= p.Ents() && (i == p.Ents() ==> len == 0) && AtEntry(mem, p, base, list, i, len)
      invariant qsg.Valid() && qsg.sg == was + added
      invariant goal == Prefixed(added, Walk(mem, p, base, i, len))
      decreases len
    {
      EntryFetched(mem, p, base, list, i, len);
      WalkUnfolds(mem, p, base, i, len);
      var ent := list[i];
      if i == p.Ents() - 1 && len > p.size {
        if !p.Aligned(ent) {
          Refused(added);
          return false;
        }
        list := NextListPage(mem, p, ent, len);
        i, base := 0, ent;
        EntryFetched(mem, p, base, list, i, len);
        WalkUnfolds(mem, p, base, i, len);
        ent := list[i];
      }
      if !p.Aligned(ent) {
        Refused(added);
        return false;
      }
      var transLen := Min(len, p.size);
      qsg.Add(ent, transLen);
      Regroup(was, added, Segment(ent, transLen), Walk(mem, p, base, i + 1, len - transLen));
      added := added + [Segment(ent, transLen)];
      len := len - transLen;
      i := i + 1;
    }
    NothingLeft(mem, p, base, i);
    NothingMore(added);
    ok := true;
  }

  /** What the loop has added, followed by what it still has to add. */
  ghost function Prefixed(added: seq<Segment>, rest: Option<seq<Segment>>): Option<seq<Segment>> {
    if rest.None? then None else Some(added + rest.value)
  }

  lemma NothingAdded(goal: Option<seq<Segment>>)
    ensures goal == Prefixed([], goal)
  {
    if goal.Some? {
      assert [] + goal.value == goal.value;
    }
  }

  lemma NothingMore(added: seq<Segment>)
    ensures Prefixed(added, Some([])) == Some(added)
  {
    assert added + [] == added;
  }

  lemma Refused(added: seq<Segment>)
    ensures Prefixed(added, None) == None
  {
  }

  lemma Regroup(was: seq<Segment>, added: seq<Segment>, x: Segment, rest: Option<seq<Segment>>)
    ensures was + added + [x] == was + (added + [x])
    ensures Prefixed(added, if rest.None? then None else Some([x] + rest.value)) == Prefixed(added + [x], rest)
  {
    if rest.Some? {
      assert added + ([x] + rest.value) == (added + [x]) + rest.value;
    }
  }

  /** `nvme_map_prp`. */
  method MapPrp(mem: nat -> nat, p: Pages, prp1: nat, prp2: nat, len0: nat, qsg: SgList) returns (ok: bool)
    requires p.Ok() && qsg.Valid() && qsg.sg == []
    modifies qsg
    ensures qsg.Valid()
    ensures var segs := Transfer(mem, p, prp1, prp2, len0); ok == segs.Some? && (ok ==> qsg.sg == segs.value)
    ensures ok && len0 > 0 ==> AllBytesLie(mem, p, prp1, prp2, len0, qsg.sg)
  {
    hide Pages.Ents, Entries, PageCount, Segments, Total, Pages.Aligned, AllBytesLie;
    AllBytes(mem, p, prp1, prp2, len0);
    var transLen := Min(len0, p.size - prp1 % p.size);
    if prp1 == 0 {
      return false;
    }
    qsg.Add(prp1, transLen);
    var len := len0 - transLen;
    if len != 0 {
      if prp2 == 0 {
        return false;
      }
      if len > p.size {
        ok := MapList(mem, p, prp2, len, qsg);
        return;
      }
      if prp2 % p.size != 0 {
        return false;
      }
      qsg.Add(prp2, len);
    }
    ok := true;
  }
}
