/** Linear memories: inserting the app heap when a memory is instantiated, and growing
    the memory afterwards. 32- and 64-bit wrap-around is explicit. */
module LinearMemory {
  import opened Bits

  const KB: nat := 1024
  const APP_HEAP_SIZE_MAX: nat := 0x4000_0000
  const MAX_LINEAR_MEMORY_SIZE: nat := 0x1_0000_0000

  function DefaultMaxPages(is64: bool): nat {
    if is64 then U32 - 1 else 65536
  }

  type u32 = x: int | 0 <= x < 0x1_0000_0000

  // ----- Inserting the app heap -----

  /** `heapBase` is the adjusted `__heap_base`, when that global is rewritten. */
  datatype Layout =
    | Failed
    | Layout(pageBytes: nat, initPages: nat, maxPages: nat, heapOffset: nat, heapSize: nat, heapBase: Option<nat>)

  /** Bytes between `offset` and the end of the page it is in; an offset at a page start
      counts as the end of the page before. */
  function ToPageEnd(offset: nat, pageBytes: nat): nat
    requires pageBytes > 0
  {
    if offset % pageBytes == 0 then 0 else pageBytes - offset % pageBytes
  }

  function CeilDiv(a: nat, b: nat): nat
    requires b > 0
  {
    (a + b - 1) / b
  }

  predicate BeforeHeapBase(pageBytes: nat, initPages: nat, auxHeapBase: Option<nat>) {
    auxHeapBase.Some? && auxHeapBase.value < pageBytes * initPages
  }

  /** The memory is one page and stays so. */
  predicate OneFixedPage(initPages: nat, maxPages: nat) {
    initPages == maxPages && initPages == 1
  }

  predicate NeverAnyPage(initPages: nat, maxPages: nat) {
    initPages == maxPages && initPages == 0
  }

  /** Whether a base at `offset` would be less than a kilobyte below the end of its page. */
  function NearEnd(offset: nat, pageBytes: nat): nat
    requires pageBytes > 0
  {
    if ToPageEnd(offset, pageBytes) < KB then 1 else 0
  }

  /** The 32-bit page computation before `base`, or with no base for appended pages, does
      not wrap. */
  predicate CountExact(pageBytes: nat, heap: nat, base: Option<nat>)
    requires pageBytes > 0
  {
    heap + pageBytes <= U32 + (if base.Some? then ToPageEnd(base.value, pageBytes) else 0)
  }

  /** The app heap lies inside the new memory, which is at least as large as declared and
      within its maximum. */
  predicate HeapFits(initPages: nat, l: Layout)
    requires l.Layout?
  {
    && l.heapOffset + l.heapSize <= l.pageBytes * l.initPages
    && initPages <= l.initPages <= l.maxPages
  }

  lemma RoundUpWithin(offset: nat, page: nat, pages: nat)
    requires page > 0 && offset <= page * pages
    ensures offset + ToPageEnd(offset, page) <= page * pages
  {
    var q, r := offset / page, offset % page;
    assert offset == page * q + r;
    if r != 0 {
      if q >= pages {
        MulMono(page, pages, q);
      }
      MulMono(page, q + 1, pages);
      assert page * (q + 1) == page * q + page;
    }
  }

  lemma MulMono(m: nat, a: nat, b: nat)
    requires a <= b
    ensures m * a <= m * b
  {
  }

  lemma CeilDivBounds(a: nat, b: nat)
    requires b > 0
    ensures a <= b * CeilDiv(a, b) <= a + b - 1
  {
    assert a + b - 1 == b * CeilDiv(a, b) + (a + b - 1) % b;
  }

  method BytesToPageEnd(offset: nat, page: u32) returns (toPageEnd: nat)
    requires page > 0
    ensures toPageEnd == ToPageEnd(offset, page)
  {
    var lastBytes := offset % page;
    if lastBytes == 0 {
      lastBytes := page;
    }
    toPageEnd := page - lastBytes;
  }

  /** Pages needed beyond the one `base` is in. */
  function MorePages(page: nat, heap: nat, base: nat): nat
    requires page > 0
  {
    var gap := ToPageEnd(base, page);
    if heap <= gap then 0 else CeilDiv(heap - gap, page)
  }

  /** The pages added before `base`: those needed, or none if their computation wraps, and
      one more if the new base is near the end of its page. */
  function PagesBefore(page: nat, heap: nat, base: nat): nat
    requires page > 0
  {
    (if CountExact(page, heap, Some(base)) then MorePages(page, heap, base) else 0) + NearEnd(base + heap, page)
  }

  /** The new base: the heap end, or a kilobyte more near the end of a page. */
  function BaseAfter(page: nat, heap: nat, base: nat): nat
    requires page > 0
  {
    base + heap + KB * NearEnd(base + heap, page)
  }

  /** Inserting before `__heap_base`, with 32-bit page computation. */
  method InsertBeforeBase(page: u32, heap: u32, auxBase: nat) returns (inc: nat, base: nat)
    requires page >= 2 * KB && 0 < heap
    ensures inc == PagesBefore(page, heap, auxBase) && base == BaseAfter(page, heap, auxBase)
  {
    base := auxBase;
    var toPageEnd := BytesToPageEnd(base, page);
    PageCount(heap, toPageEnd, page);
    inc := Wrap32(heap - toPageEnd + page - 1) / page;
    base := base + heap;
    toPageEnd := BytesToPageEnd(base, page);
    if toPageEnd < 1 * KB {
      base := base + 1 * KB;
      inc := inc + 1;
    }
  }

  /** The heap lies inside the memory exactly if the page computation does not wrap or the
      heap ends below the declared memory and the page added for a near end; a kilobyte is
      left above the new base exactly if it does not wrap or the heap ends inside the
      declared memory. */
  lemma BeforeBaseExact(page: nat, init: nat, heap: nat, base: nat, inc: nat)
    requires page >= 2 * KB && base < page * init && inc == PagesBefore(page, heap, base)
    ensures var near := NearEnd(base + heap, page);
            && (base + heap <= page * (init + inc) <==>
                  CountExact(page, heap, Some(base)) || base + heap <= page * (init + near))
            && base + heap <= BaseAfter(page, heap, base)
            && (BaseAfter(page, heap, base) + KB <= page * (init + inc) <==>
                  CountExact(page, heap, Some(base)) || base + heap <= page * init)
  {
    var near := NearEnd(base + heap, page);
    if CountExact(page, heap, Some(base)) {
      var more := MorePages(page, heap, base);
      if heap > ToPageEnd(base, page) {
        CeilDivBounds(heap - ToPageEnd(base, page), page);
      }
      RoomAboveBase(page, init, heap, base, more);
    } else {
      RoomWithin(page, base + heap, init);
    }
  }

  lemma RoomAboveBase(page: nat, init: nat, heap: nat, base: nat, more: nat)
    requires page >= 2 * KB && base < page * init
    requires heap <= ToPageEnd(base, page) + page * more
    ensures base + heap + ToPageEnd(base + heap, page) <= page * (init + more)
    ensures page * (init + more + 1) == page * (init + more) + page
  {
    RoundUpWithin(base, page, init);
    assert page * (init + more) == page * init + page * more;
    RoundUpWithin(base + heap, page, init + more);
  }

  /** Without more pages there is room above `end` exactly if it lies in the declared memory. */
  lemma RoomWithin(page: nat, end: nat, init: nat)
    requires page >= 2 * KB
    ensures end + KB * NearEnd(end, page) + KB <= page * (init + NearEnd(end, page)) <==> end <= page * init
  {
    assert page * (init + 1) == page * init + page;
    if end <= page * init {
      RoundUpWithin(end, page, init);
    } else if NearEnd(end, page) == 1 {
      RoundUpAbove(end, page, init);
    }
  }

  /** The end of the page of an offset above `page * pages` is at least a page above it. */
  lemma RoundUpAbove(offset: nat, page: nat, pages: nat)
    requires page > 0 && offset > page * pages
    ensures offset + ToPageEnd(offset, page) >= page * pages + page
  {
    var q, r := offset / page, offset % page;
    assert offset == page * q + r && page * (q + 1) == page * q + page;
    if q < pages {
      MulMono(page, q + 1, pages);
    } else if q > pages {
      MulMono(page, pages + 1, q);
      assert page * (pages + 1) == page * pages + page;
    }
  }

  /** The 32-bit division gives the pages needed, or none if the sum before it wraps. */
  lemma PageCount(heap: nat, gap: nat, page: nat)
    requires 0 < heap < U32 && gap < page < U32
    ensures Wrap32(heap - gap + page - 1) / page
         == if heap + page > U32 + gap || heap <= gap then 0 else CeilDiv(heap - gap, page)
  {
    var x := heap - gap + page - 1;
    OneWrap(x, U32);
    if heap + page > U32 + gap {
      DivModUnique(x - U32, page, 0, x - U32);
    } else if heap <= gap {
      DivModUnique(x, page, 0, x);
    }
  }

  /** Appending whole pages for the heap, all but the last kilobyte of which it gets; if the
      page computation wraps it gets none. */
  method AppendPages(page: u32, heap: u32) returns (inc: nat, newHeap: nat)
    requires page >= 2 * KB && 0 < heap
    ensures inc == PagesAppended(page, heap) && newHeap == HeapAppended(page, heap)
  {
    PageCount(heap, 0, page);
    inc := Wrap32(heap + page - 1) / page;
    if CountExact(page, heap, None) {
      CeilDivBounds(heap, page);
      WholePages(page, 0, inc);
    }
    newHeap := LessKB(page * inc);
  }

  lemma AppendedExact(page: nat, init: nat, heap: nat)
    requires page >= 2 * KB && heap > 0
    ensures var newHeap, inc := HeapAppended(page, heap), PagesAppended(page, heap);
            && newHeap >= 0 && (newHeap > 0 <==> CountExact(page, heap, None))
            && (newHeap > 0 ==> heap <= newHeap + KB && page * init + newHeap + KB == page * (init + inc))
  {
    if CountExact(page, heap, None) {
      CeilDivBounds(heap, page);
      WholePages(page, init, CeilDiv(heap, page));
    }
  }

  function PagesAppended(page: nat, heap: nat): nat
    requires page > 0
  {
    if CountExact(page, heap, None) then CeilDiv(heap, page) else 0
  }

  function HeapAppended(page: nat, heap: nat): int
    requires page > 0
  {
    if CountExact(page, heap, None) then page * CeilDiv(heap, page) - KB else 0
  }

  method LessKB(pages: nat) returns (heap: nat)
    requires pages == 0 || KB < pages < U32
    ensures heap == if pages == 0 then 0 else pages - KB
  {
    heap := Wrap32(pages);
    if heap > 0 {
      heap := Wrap32(heap - 1 * KB);
    }
  }

  lemma WholePages(page: nat, init: nat, inc: nat)
    requires inc > 0
    ensures page * (init + inc) == page * init + page * inc && page * inc >= page
  {
    MulMono(page, 1, inc);
  }

  /** What the chosen layout branch decides before the page counts grow. */
  datatype Plan = Plan(page: nat, heapOffset: nat, heap: int, inc: nat, base: Option<nat>)

  /** A non-empty heap goes into a memory of `size` bytes that is not a single fixed page: into
      a page of its own, before `__heap_base`, or into appended pages. */
  function PlanOf(page: nat, init: nat, max: nat, heap: nat, aux: Option<nat>, size: nat): Plan
    requires page > 0
  {
    if NeverAnyPage(init, max) then Plan(heap, 0, heap, 1, None)
    else if aux.Some? && aux.value < size then
      Plan(page, aux.value, heap, PagesBefore(page, heap, aux.value), Some(BaseAfter(page, heap, aux.value)))
    else Plan(page, size, HeapAppended(page, heap), PagesAppended(page, heap), None)
  }

  method PlanHeap(page: u32, init: u32, max: u32, heap: u32, auxHeapBase: Option<nat>, size: nat) returns (p: Plan)
    requires page >= 2 * KB && 0 < heap
    ensures p == PlanOf(page, init, max, heap, auxHeapBase, size)
  {
    if init == max && init == 0 {
      p := Plan(heap, 0, heap, 1, None);
    } else if auxHeapBase.Some? && auxHeapBase.value < size {
      var inc, base := InsertBeforeBase(page, heap, auxHeapBase.value);
      p := Plan(page, auxHeapBase.value, heap, inc, Some(base));
    } else {
      var inc, newHeap := AppendPages(page, heap);
      p := Plan(page, size, newHeap, inc, None);
    }
  }

  /** A heap before `__heap_base` whose page computation wraps and that ends above the memory. */
  predicate HeapOutside(page: nat, init: nat, max: nat, heap: nat, aux: Option<nat>)
    requires page > 0
  {
    && heap > 0 && !NeverAnyPage(init, max) && !OneFixedPage(init, max) && BeforeHeapBase(page, init, aux)
    && !CountExact(page, heap, aux) && aux.value + heap > page * (init + NearEnd(aux.value + heap, page))
  }

  /** Appended pages whose computation wraps: the heap gets nothing. */
  predicate HeapLost(page: nat, init: nat, max: nat, heap: nat, aux: Option<nat>)
    requires page > 0
  {
    && heap > 0 && !NeverAnyPage(init, max) && !OneFixedPage(init, max) && !BeforeHeapBase(page, init, aux)
    && !CountExact(page, heap, None)
  }

  lemma PlanExact(page: nat, init: nat, max: nat, heap: nat, aux: Option<nat>)
    requires page >= 2 * KB && heap > 0 && !OneFixedPage(init, max)
    ensures var p := PlanOf(page, init, max, heap, aux, page * init);
            && p.heap >= 0 && (p.page == page || init == max)
            && (p.heapOffset + p.heap <= p.page * (init + p.inc) <==> !HeapOutside(page, init, max, heap, aux))
            && (p.heap == 0 <==> HeapLost(page, init, max, heap, aux))
            && (p.heap > 0 ==> heap <= p.heap + KB)
  {
    if NeverAnyPage(init, max) {
    } else if BeforeHeapBase(page, init, aux) {
      BeforeBaseExact(page, init, heap, aux.value, PagesBefore(page, heap, aux.value));
    } else {
      AppendedExact(page, init, heap);
    }
  }

  /** The pages that inserting the heap adds. */
  function AddedPages(page: nat, init: nat, max: nat, heap: nat, aux: Option<nat>): nat
    requires page > 0
  {
    if heap == 0 || OneFixedPage(init, max) then 0 else PlanOf(page, init, max, heap, aux, page * init).inc
  }

  lemma FewPages(page: nat, init: nat, max: nat, heap: nat, aux: Option<nat>)
    requires page >= 2 * KB
    ensures AddedPages(page, init, max, heap, aux) <= heap + 1
  {
    if aux.Some? && heap > ToPageEnd(aux.value, page) {
      CeilDivSmall(heap - ToPageEnd(aux.value, page), page);
    }
    CeilDivSmall(heap, page);
  }

  lemma CeilDivSmall(a: nat, b: nat)
    requires b > 0
    ensures CeilDiv(a, b) <= a
  {
    CeilDivBounds(a, b);
    NoMoreThan(a, b, CeilDiv(a, b));
  }

  lemma NoMoreThan(a: nat, b: nat, c: nat)
    requires b > 0 && b * c <= a + b - 1
    ensures c <= a
  {
    if c > a {
      MulMono(b, a + 1, c);
      assert b * (a + 1) == b * a + b;
      MulAtLeast(b, a);
    }
  }

  /** The tail of the layout computation: both page counts grow by `inc`, in 32 bits. */
  function Enlarged(page: nat, init: nat, max: nat, heapOffset: nat, heap: nat, inc: nat, base: Option<nat>,
      is64: bool): Layout {
    var init', max' := Wrap32(init + inc), Wrap32(max + inc);
    if init' > DefaultMaxPages(is64) then Failed
    else Layout(page, init', Min(max', DefaultMaxPages(is64)), heapOffset, heap, base)
  }

  lemma EnlargedFits(page: nat, init: nat, max: nat, heapOffset: nat, heap: nat, inc: nat, base: Option<nat>,
      is64: bool)
    requires init <= max <= DefaultMaxPages(is64) && inc < U32
    ensures var l := Enlarged(page, init, max, heapOffset, heap, inc, base, is64);
            l.Layout? ==>
              && (HeapFits(init, l) <==> max + inc < U32 && heapOffset + heap <= page * (init + inc))
              && (max + inc < U32 ==> l.initPages == init + inc)
              && (init == max ==> l.initPages == l.maxPages)
  {
    OneWrap(init + inc, U32);
    OneWrap(max + inc, U32);
    var l := Enlarged(page, init, max, heapOffset, heap, inc, base, is64);
  }

  // ----- The whole layout -----

  /** The layout for a heap of `heap` bytes in a memory of `size` bytes. */
  function LayoutIn(page: nat, init: nat, max: nat, heap: nat, aux: Option<nat>, is64: bool, size: nat): Layout
    requires page >= 2 * KB
  {
    if heap > 0 && size == MAX_LINEAR_MEMORY_SIZE then Failed
    else if OneFixedPage(init, max) then
      if page + heap >= U32 && heap > 0 then Failed else Layout(page + heap, init, max, page, heap, None)
    else if heap == 0 then Layout(page, init, max, size, 0, None)
    else
      var p := PlanOf(page, init, max, heap, aux, size);
      AppendedExact(page, 0, heap);
      Enlarged(p.page, init, max, p.heapOffset, p.heap, p.inc, p.base, is64)
  }

  function LayoutOf(page: nat, init: nat, max: nat, heap: nat, aux: Option<nat>, is64: bool): Layout
    requires page >= 2 * KB
  {
    LayoutIn(page, init, max, heap, aux, is64, page * init)
  }

  method EnlargePages(page: nat, init: u32, max: u32, heapOffset: nat, heap: nat, inc: nat, base: Option<nat>,
      is64: bool) returns (l: Layout)
    ensures l == Enlarged(page, init, max, heapOffset, heap, inc, base, is64)
  {
    var init', max' := Wrap32(init + inc), Wrap32(max + inc);
    if init' > DefaultMaxPages(is64) {
      return Failed;
    }
    if max' > DefaultMaxPages(is64) {
      max' := DefaultMaxPages(is64);
    }
    l := Layout(page, init', max', heapOffset, heap, base);
  }

  method InsertHeap(page: u32, init: u32, max: u32, heap: u32, auxHeapBase: Option<nat>, is64: bool, size: nat)
    returns (l: Layout)
    requires page >= 2 * KB && 0 < heap && !OneFixedPage(init, max) && size != MAX_LINEAR_MEMORY_SIZE
    ensures l == LayoutIn(page, init, max, heap, auxHeapBase, is64, size)
  {
    var p := PlanHeap(page, init, max, heap, auxHeapBase, size);
    AppendedExact(page, 0, heap);
    l := EnlargePages(p.page, init, max, p.heapOffset, p.heap, p.inc, p.base, is64);
  }

  method InsertInto(page: u32, init: u32, max: u32, heap: u32, auxHeapBase: Option<nat>, is64: bool, size: nat)
    returns (l: Layout)
    requires page >= 2 * KB && init <= max
    ensures l == LayoutIn(page, init, max, heap, auxHeapBase, is64, size)
  {
    if heap > 0 && size == MAX_LINEAR_MEMORY_SIZE {
      l := Failed;
    } else if init == max && init == 1 {
      // One page and never more: the heap goes to the end of a larger page.
      OneWrap(page + heap, U32);
      var enlarged := Wrap32(page + heap);
      l := if enlarged < heap then Failed else Layout(enlarged, init, max, page, heap, None);
    } else if heap > 0 {
      l := InsertHeap(page, init, max, heap, auxHeapBase, is64, size);
    } else {
      l := Layout(page, init, max, size, heap, None);
    }
  }

  /** The layout part of `memory_instantiate`; `useAppMalloc` says that the module exports
      its own malloc and free. */
  method InsertAppHeap(pageBytes: u32, initPages: u32, maxPages: u32, heapSize: u32, auxHeapBase: Option<nat>,
                       is64: bool, useAppMalloc: bool)
    returns (l: Layout)
    requires pageBytes >= 2 * KB && initPages <= maxPages
    ensures l == LayoutOf(pageBytes, initPages, maxPages, if useAppMalloc then 0 else heapSize, auxHeapBase, is64)
  {
    var heap: u32 := if useAppMalloc then 0 else heapSize;
    var heapOffset := pageBytes * initPages;
    l := InsertInto(pageBytes, initPages, maxPages, heap, auxHeapBase, is64, heapOffset);
  }

  /** What a layout promises for a heap of `heap` bytes. It fails exactly if the memory is
      full, the one fixed page cannot hold the heap, or there would be too many pages. The
      heap fits exactly if the page counts do not wrap and it is not left outside; it is
      missing exactly if its page computation wraps; only a memory that cannot grow changes
      its page size; and a rewritten `__heap_base` is at or above the heap end, with a
      kilobyte to spare exactly if the page computation does not wrap or the heap ends in
      the declared memory. */
  ghost predicate LayoutOk(page: nat, init: nat, max: nat, heap: nat, aux: Option<nat>, is64: bool, l: Layout)
    requires page > 0
  {
    && (l.Failed? <==> Fails(page, init, max, heap, aux, is64))
    && (l.Layout? ==>
          && FitOk(page, init, max, heap, aux, l) && SizeOk(page, init, max, heap, aux, l)
          && BaseOk(page, init, max, heap, aux, l))
  }

  predicate Fails(page: nat, init: nat, max: nat, heap: nat, aux: Option<nat>, is64: bool)
    requires page > 0
  {
    && heap > 0
    && (|| page * init == MAX_LINEAR_MEMORY_SIZE
        || (OneFixedPage(init, max) && page + heap >= U32)
        || (!OneFixedPage(init, max) && Wrap32(init + AddedPages(page, init, max, heap, aux)) > DefaultMaxPages(is64)))
  }

  predicate FitOk(page: nat, init: nat, max: nat, heap: nat, aux: Option<nat>, l: Layout)
    requires page > 0 && l.Layout?
  {
    && (HeapFits(init, l) <==>
          max + AddedPages(page, init, max, heap, aux) < U32 && !HeapOutside(page, init, max, heap, aux))
    && (l.pageBytes == page || l.initPages == l.maxPages)
  }

  predicate SizeOk(page: nat, init: nat, max: nat, heap: nat, aux: Option<nat>, l: Layout)
    requires page > 0 && l.Layout?
  {
    && (l.heapSize == 0 <==> heap == 0 || HeapLost(page, init, max, heap, aux))
    && (l.heapSize > 0 ==> heap <= l.heapSize + KB)
  }

  predicate BaseOk(page: nat, init: nat, max: nat, heap: nat, aux: Option<nat>, l: Layout)
    requires page > 0 && l.Layout?
  {
    && (l.heapBase.Some? <==>
          heap > 0 && !NeverAnyPage(init, max) && !OneFixedPage(init, max) && BeforeHeapBase(page, init, aux))
    && (l.heapBase.Some? ==> l.heapSize == heap && l.heapOffset + heap <= l.heapBase.value)
    && (l.heapBase.Some? && max + AddedPages(page, init, max, heap, aux) < U32 ==>
          (l.heapBase.value + KB <= l.pageBytes * l.initPages <==>
             CountExact(page, heap, aux) || aux.value + heap <= page * init))
  }

  lemma FailsExact(page: nat, init: nat, max: nat, heap: nat, aux: Option<nat>, is64: bool)
    requires 2 * KB <= page
    ensures LayoutOf(page, init, max, heap, aux, is64).Failed? <==> Fails(page, init, max, heap, aux, is64)
  {
  }

  /** With a heap and without a fixed page, the layout is the enlarged plan. */
  lemma Planned(page: nat, init: nat, max: nat, heap: nat, aux: Option<nat>, is64: bool)
    requires 2 * KB <= page && heap > 0 && !OneFixedPage(init, max)
    requires LayoutOf(page, init, max, heap, aux, is64).Layout?
    ensures var p := PlanOf(page, init, max, heap, aux, page * init);
            && p.heap >= 0 && p.inc == AddedPages(page, init, max, heap, aux)
            && LayoutOf(page, init, max, heap, aux, is64)
            == Enlarged(p.page, init, max, p.heapOffset, p.heap, p.inc, p.base, is64)
  {
    AppendedExact(page, 0, heap);
  }

  lemma FitExact(page: nat, init: nat, max: nat, heap: nat, aux: Option<nat>, is64: bool)
    requires 2 * KB <= page < U32 && heap < U32 - 1 && init <= max <= DefaultMaxPages(is64)
    requires LayoutOf(page, init, max, heap, aux, is64).Layout?
    ensures FitOk(page, init, max, heap, aux, LayoutOf(page, init, max, heap, aux, is64))
  {
    if heap > 0 && !OneFixedPage(init, max) {
      var p := PlanOf(page, init, max, heap, aux, page * init);
      Planned(page, init, max, heap, aux, is64);
      PlanExact(page, init, max, heap, aux);
      FewPages(page, init, max, heap, aux);
      EnlargedFits(p.page, init, max, p.heapOffset, p.heap, p.inc, p.base, is64);
    }
  }

  lemma SizeExact(page: nat, init: nat, max: nat, heap: nat, aux: Option<nat>, is64: bool)
    requires 2 * KB <= page && LayoutOf(page, init, max, heap, aux, is64).Layout?
    ensures SizeOk(page, init, max, heap, aux, LayoutOf(page, init, max, heap, aux, is64))
  {
    if heap > 0 && !OneFixedPage(init, max) {
      Planned(page, init, max, heap, aux, is64);
      PlanExact(page, init, max, heap, aux);
    }
  }

  lemma BaseExact(page: nat, init: nat, max: nat, heap: nat, aux: Option<nat>, is64: bool)
    requires 2 * KB <= page < U32 && heap < U32 - 1 && init <= max <= DefaultMaxPages(is64)
    requires LayoutOf(page, init, max, heap, aux, is64).Layout?
    ensures BaseOk(page, init, max, heap, aux, LayoutOf(page, init, max, heap, aux, is64))
  {
    if heap > 0 && !OneFixedPage(init, max) {
      var p := PlanOf(page, init, max, heap, aux, page * init);
      Planned(page, init, max, heap, aux, is64);
      FewPages(page, init, max, heap, aux);
      EnlargedFits(p.page, init, max, p.heapOffset, p.heap, p.inc, p.base, is64);
      if p.base.Some? {
        BeforeBaseExact(page, init, heap, aux.value, p.inc);
      }
    }
  }

  lemma LayoutExact(page: nat, init: nat, max: nat, heap: nat, aux: Option<nat>, is64: bool)
    requires 2 * KB <= page < U32 && heap < U32 - 1 && init <= max <= DefaultMaxPages(is64)
    ensures LayoutOk(page, init, max, heap, aux, is64, LayoutOf(page, init, max, heap, aux, is64))
  {
    FailsExact(page, init, max, heap, aux, is64);
    if LayoutOf(page, init, max, heap, aux, is64).Layout? {
      FitExact(page, init, max, heap, aux, is64);
      SizeExact(page, init, max, heap, aux, is64);
      BaseExact(page, init, max, heap, aux, is64);
    }
  }

  // ----- Where the heap goes -----

  /** The page of the layout: the heap itself in a memory that never has a page, one larger
      page in a memory of one fixed page, and otherwise the module's page. */
  function PageFor(page: nat, init: nat, max: nat, heap: nat): nat {
    if OneFixedPage(init, max) then page + heap
    else if heap > 0 && NeverAnyPage(init, max) then heap
    else page
  }

  /** The heap goes to the end of the declared memory, or to `__heap_base` if that is
      rewritten, so it shares no byte with the declared memory unless the base is rewritten. */
  predicate PlaceOk(page: nat, init: nat, max: nat, heap: nat, aux: Option<nat>, l: Layout)
    requires l.Layout?
  {
    && (l.heapBase.Some? ==> aux.Some? && l.heapOffset == aux.value < page * init)
    && (l.heapBase.None? ==> l.heapOffset == page * init)
    && l.pageBytes == PageFor(page, init, max, heap)
  }

  lemma PlaceExact(page: nat, init: nat, max: nat, heap: nat, aux: Option<nat>, is64: bool)
    requires 2 * KB <= page && LayoutOf(page, init, max, heap, aux, is64).Layout?
    ensures PlaceOk(page, init, max, heap, aux, LayoutOf(page, init, max, heap, aux, is64))
  {
    if heap > 0 && !OneFixedPage(init, max) {
      Planned(page, init, max, heap, aux, is64);
    }
  }

  /** While they do not wrap, both page counts grow by the pages added, up to the largest
      number of pages there is. */
  lemma PagesExact(page: nat, init: nat, max: nat, heap: nat, aux: Option<nat>, is64: bool)
    requires 2 * KB <= page && init <= max <= DefaultMaxPages(is64)
    requires LayoutOf(page, init, max, heap, aux, is64).Layout? && max + AddedPages(page, init, max, heap, aux) < U32
    ensures var l, inc := LayoutOf(page, init, max, heap, aux, is64), AddedPages(page, init, max, heap, aux);
            l.initPages == init + inc && l.maxPages == Min(max + inc, if is64 then 0xFFFF_FFFF else 0x1_0000)
  {
    if heap > 0 && !OneFixedPage(init, max) {
      Planned(page, init, max, heap, aux, is64);
      var inc := AddedPages(page, init, max, heap, aux);
      OneWrap(init + inc, U32);
      OneWrap(max + inc, U32);
    }
  }

  /** The added pages hold less than the heap and two pages, so no more than two are spare; in
      a memory that never has a page the one page added is the heap. */
  lemma AddedFew(page: nat, init: nat, max: nat, heap: nat, aux: Option<nat>)
    requires 2 * KB <= page && 0 < heap
    ensures NeverAnyPage(init, max) ==> PageFor(page, init, max, heap) * AddedPages(page, init, max, heap, aux) == heap
    ensures !NeverAnyPage(init, max) ==> page * AddedPages(page, init, max, heap, aux) < heap + 2 * page
  {
    if aux.Some? && heap > ToPageEnd(aux.value, page) {
      CeilDivBounds(heap - ToPageEnd(aux.value, page), page);
      assert page * (MorePages(page, heap, aux.value) + 1) == page * MorePages(page, heap, aux.value) + page;
    }
    CeilDivBounds(heap, page);
  }

  /** A rewritten base is at least a kilobyte away from the end of its page, and at most one
      above the heap. */
  lemma BaseClear(page: nat, init: nat, max: nat, heap: nat, aux: Option<nat>, is64: bool)
    requires 2 * KB <= page && LayoutOf(page, init, max, heap, aux, is64).Layout?
    requires LayoutOf(page, init, max, heap, aux, is64).heapBase.Some?
    ensures var l := LayoutOf(page, init, max, heap, aux, is64);
            && ToPageEnd(l.heapBase.value, page) >= KB
            && l.heapOffset + heap <= l.heapBase.value <= l.heapOffset + heap + KB
  {
    Planned(page, init, max, heap, aux, is64);
    AwayFromEnd(page, aux.value + heap);
  }

  lemma AwayFromEnd(page: nat, end: nat)
    requires 2 * KB <= page
    ensures ToPageEnd(end + KB * NearEnd(end, page), page) >= KB
  {
    var gap := ToPageEnd(end, page);
    if gap < KB {
      var q, r := end / page, end % page;
      assert end == q * page + r;
      if r == 0 {
        DivModUnique(end + KB, page, q, KB);
      } else {
        assert (q + 1) * page == q * page + page;
        DivModUnique(end + KB, page, q + 1, KB - gap);
      }
    }
  }

  /** The page counts of a 32-bit memory never wrap, so whenever insertion succeeds the heap
      fits, exactly unless it is left outside. */
  lemma Heap32Fits(page: nat, init: nat, max: nat, heap: nat, aux: Option<nat>)
    requires 2 * KB <= page < U32 && heap <= APP_HEAP_SIZE_MAX && init <= max <= DefaultMaxPages(false)
    ensures var l := LayoutOf(page, init, max, heap, aux, false);
            l.Layout? ==> (HeapFits(init, l) <==> !HeapOutside(page, init, max, heap, aux))
  {
    LayoutExact(page, init, max, heap, aux, false);
    FewPages(page, init, max, heap, aux);
  }

  /** If the declared maximum is within 4 GiB, the heap always fits, with a kilobyte to spare
      above a rewritten `__heap_base`. */
  lemma DeclaredFits(page: nat, init: nat, max: nat, heap: nat, aux: Option<nat>, is64: bool)
    requires 2 * KB <= page < U32 && heap <= APP_HEAP_SIZE_MAX && init <= max <= DefaultMaxPages(is64)
    requires page * max <= MAX_LINEAR_MEMORY_SIZE
    ensures var l := LayoutOf(page, init, max, heap, aux, is64);
            l.Layout? ==>
              HeapFits(init, l) && (l.heapBase.Some? ==> l.heapBase.value + KB <= l.pageBytes * l.initPages)
  {
    LayoutExact(page, init, max, heap, aux, is64);
    FewPages(page, init, max, heap, aux);
    FewDeclared(page, max);
    if heap > 0 && !OneFixedPage(init, max) && BeforeHeapBase(page, init, aux) {
      DeclaredExact(page, init, max, heap, aux);
    }
    FitsBy(page, init, max, heap, aux, is64, LayoutOf(page, init, max, heap, aux, is64));
  }

  lemma FewDeclared(page: nat, max: nat)
    requires 2 * KB <= page && page * max <= MAX_LINEAR_MEMORY_SIZE
    ensures max <= 0x20_0000
  {
    MulMono(max, 2 * KB, page);
  }

  lemma DeclaredExact(page: nat, init: nat, max: nat, heap: nat, aux: Option<nat>)
    requires 0 < page && heap <= APP_HEAP_SIZE_MAX && init <= max && page * max <= MAX_LINEAR_MEMORY_SIZE
    requires !OneFixedPage(init, max) && BeforeHeapBase(page, init, aux)
    ensures CountExact(page, heap, aux)
  {
    assert init > 0;
    MulMono(page, 2, max);
  }

  lemma FitsBy(page: nat, init: nat, max: nat, heap: nat, aux: Option<nat>, is64: bool, l: Layout)
    requires page > 0 && (l.Layout? ==> LayoutOk(page, init, max, heap, aux, is64, l))
    requires max + AddedPages(page, init, max, heap, aux) < U32
    requires heap > 0 && !OneFixedPage(init, max) && BeforeHeapBase(page, init, aux) ==> CountExact(page, heap, aux)
    ensures l.Layout? ==> HeapFits(init, l)
    ensures l.Layout? && l.heapBase.Some? ==> l.heapBase.value + KB <= l.pageBytes * l.initPages
  {
  }

  /** A heap left outside its memory. */
  lemma OutsideInput()
    ensures LayoutOf(0xF000_0000, 1, 2, 0x4000_0000, Some(0xE000_0000), false)
         == Layout(0xF000_0000, 1, 2, 0xE000_0000, 0x4000_0000, Some(0x1_2000_0000))
    ensures !HeapFits(1, Layout(0xF000_0000, 1, 2, 0xE000_0000, 0x4000_0000, Some(0x1_2000_0000)))
  {
    OneWrap(1, U32);
    OneWrap(2, U32);
  }

  /** A heap that gets nothing. */
  lemma LostInput()
    ensures LayoutOf(0xF000_0000, 0, 1, 0x4000_0000, None, false) == Layout(0xF000_0000, 0, 1, 0, 0, None)
  {
    OneWrap(0, U32);
    OneWrap(1, U32);
  }

  /** A 64-bit memory whose maximum wraps to zero pages. */
  lemma WrappingInput()
    ensures LayoutOf(0x1_0000, 1, 0xFFFF_FFFF, 0x1_0000, None, true) == Layout(0x1_0000, 2, 0, 0x1_0000, 0xFC00, None)
    ensures !HeapFits(1, Layout(0x1_0000, 2, 0, 0x1_0000, 0xFC00, None))
  {
    OneWrap(2, U32);
    OneWrap(0x1_0000_0000, U32);
  }

  // ----- Instances and growth -----

  /** A memory instance; addresses are 64-bit. */
  datatype Memory = Memory(
    is64: bool,
    pageBytes: nat,
    curPages: nat,
    maxPages: nat,
    data: nat,
    dataEnd: nat,
    dataSize: nat,
    heapData: int,
    heapEnd: int)

  /** What the platform answers during one growth: whether the whole range was reserved up
      front, whether committing more of it works, whether the heap is corrupted, where the
      memory was moved to, and whether the heap could be migrated there. */
  datatype Platform = Platform(
    fullSizeMapped: bool,
    protectOk: bool,
    heapCorrupted: bool,
    movedTo: Option<nat>,
    migrateOk: bool)

  /** `limit` is the start offset of the attached shared heap, if there is one. */
  datatype Growth = Growth(incPages: u32, platform: Platform, limit: Option<nat>)

  function HeapSize(m: Memory): nat {
    Wrap32(m.heapEnd - m.heapData)
  }

  predicate Refused(m: Memory, g: Growth) {
    var total := Wrap32(g.incPages + m.curPages);
    || total < m.curPages
    || total > m.maxPages
    || (g.limit.Some? && m.pageBytes * total > g.limit.value)
    || (g.platform.fullSizeMapped && !g.platform.protectOk)
    || (!g.platform.fullSizeMapped && HeapSize(m) > 0 && g.platform.heapCorrupted)
    || (!g.platform.fullSizeMapped && g.platform.movedTo.None?)
  }

  /** `wasm_enlarge_memory_internal`: the memory afterwards and the result. A failed heap
      migration is reported, but only after the memory has moved and grown. */
  function Enlarge(m: Memory, g: Growth): (Memory, bool) {
    if g.incPages == 0 then (m, true)
    else if Refused(m, g) then (m, false)
    else
      var total := Wrap32(g.incPages + m.curPages);
      var data := if g.platform.fullSizeMapped then m.data else g.platform.movedTo.value;
      var heapData := if g.platform.fullSizeMapped then m.heapData else data + (m.heapData - m.data);
      var heapEnd := if g.platform.fullSizeMapped then m.heapEnd else heapData + HeapSize(m);
      (m.(curPages := total, dataSize := m.pageBytes * total, data := data, dataEnd := data + m.pageBytes * total,
          heapData := heapData, heapEnd := heapEnd),
       g.platform.fullSizeMapped || HeapSize(m) == 0 || g.platform.migrateOk)
  }

  /** The growth statement by statement. */
  method EnlargeMemoryInternal(m: Memory, g: Growth) returns (r: Memory, ok: bool)
    ensures r == Enlarge(m, g).0 && ok == Enlarge(m, g).1
  {
    r := m;
    if g.incPages == 0 {
      return r, true;
    }
    var total := Wrap32(g.incPages + m.curPages);
    var refused := RefuseGrowth(m, g, total, m.pageBytes * total);
    if refused {
      return r, false;
    }
    ok := true;
    if !g.platform.fullSizeMapped {
      var moved, heapSize := g.platform.movedTo.value, HeapSize(m);
      if heapSize > 0 && !g.platform.migrateOk {
        ok := false;
      }
      var heapData := moved + (m.heapData - m.data);
      r := r.(heapData := heapData, heapEnd := heapData + heapSize, data := moved);
    }
    var newSize := m.pageBytes * total;
    r := r.(curPages := total, dataSize := newSize, dataEnd := r.data + newSize);
  }

  /** The tests before anything is changed. */
  method RefuseGrowth(m: Memory, g: Growth, total: nat, newSize: nat) returns (refused: bool)
    requires total == Wrap32(g.incPages + m.curPages) && newSize == m.pageBytes * total
    ensures refused == Refused(m, g)
  {
    if total < m.curPages || total > m.maxPages {
      return true;
    }
    if g.limit.Some? && newSize > g.limit.value {
      return true;
    }
    if g.platform.fullSizeMapped {
      return !g.platform.protectOk;
    }
    if HeapSize(m) > 0 && g.platform.heapCorrupted {
      return true;
    }
    return g.platform.movedTo.None?;
  }

  /** Fields agree with each other; a memory whose size was rounded up past its pages can
      no longer grow. */
  ghost predicate MemoryOk(m: Memory) {
    && m.curPages <= m.maxPages < U32
    && m.dataEnd == m.data + m.dataSize
    && (m.dataSize == m.pageBytes * m.curPages || (m.curPages == m.maxPages && m.dataSize > m.pageBytes * m.curPages))
    && m.data <= m.heapData <= m.heapEnd <= m.dataEnd
    && m.heapEnd - m.heapData < U32
  }

  /** The only failure that leaves the memory changed. */
  predicate MigrationFails(m: Memory, g: Growth) {
    g.incPages > 0 && !Refused(m, g) && !g.platform.fullSizeMapped && HeapSize(m) > 0 && !g.platform.migrateOk
  }

  /** The app heap sits at the same offset with the same length, under the same limits. */
  predicate SameHeap(m: Memory, r: Memory) {
    && r.heapData - r.data == m.heapData - m.data && r.heapEnd - r.heapData == m.heapEnd - m.heapData
    && r.maxPages == m.maxPages && r.pageBytes == m.pageBytes && r.is64 == m.is64
  }

  lemma EnlargeKeeps(m: Memory, g: Growth)
    requires MemoryOk(m)
    ensures var (r, ok) := Enlarge(m, g);
            && MemoryOk(r) && SameHeap(m, r) && m.dataSize <= r.dataSize
            && (ok ==> r.curPages == m.curPages + g.incPages)
            && (ok <==> g.incPages == 0 || !(Refused(m, g) || MigrationFails(m, g)))
            && (!ok ==> (r == m <==> !MigrationFails(m, g)))
            && (r != m && g.limit.Some? ==> r.dataSize <= g.limit.value)
  {
    if g.incPages > 0 && !Refused(m, g) {
      assert g.incPages + m.curPages < U32 by { NoWrap(m.curPages, g.incPages); }
      MulMono(m.pageBytes, m.curPages, m.curPages + g.incPages);
    }
  }

  /** The platform plays along: more memory is committed in place, or the memory moves with a
      heap that is in order and can be migrated. */
  predicate PlatformOk(m: Memory, p: Platform) {
    if p.fullSizeMapped then p.protectOk
    else p.movedTo.Some? && (m.heapData == m.heapEnd || (!p.heapCorrupted && p.migrateOk))
  }

  /** Growth succeeds exactly if the new size is within the maximum and below the attached
      heap and the platform plays along; growing by nothing always does. A memory that grows
      in place keeps its address, and otherwise it is where it has been moved to. */
  lemma GrowthExact(m: Memory, g: Growth)
    requires MemoryOk(m)
    ensures var (r, ok) := Enlarge(m, g);
            && (ok <==>
                  || g.incPages == 0
                  || (&& m.curPages + g.incPages <= m.maxPages
                      && (g.limit.Some? ==> m.pageBytes * (m.curPages + g.incPages) <= g.limit.value)
                      && PlatformOk(m, g.platform)))
            && (ok && g.incPages > 0 ==>
                  && r.curPages == m.curPages + g.incPages && r.dataSize == m.pageBytes * r.curPages
                  && r.data == if g.platform.fullSizeMapped then m.data else g.platform.movedTo.value)
  {
    OneWrap(g.incPages + m.curPages, U32);
    OneWrap(m.heapEnd - m.heapData, U32);
    if g.incPages + m.curPages >= U32 {
      assert Wrap32(g.incPages + m.curPages) < m.curPages;
    }
  }

  lemma NoWrap(cur: nat, inc: nat)
    requires cur < U32 && inc < U32 && Wrap32(inc + cur) >= cur
    ensures inc + cur < U32
  {
    OneWrap(inc + cur, U32);
  }

  function Grown(m: Memory, gs: seq<Growth>): Memory
    decreases |gs|
  {
    if gs == [] then m else Grown(Enlarge(m, gs[0]).0, gs[1..])
  }

  /** Over every sequence of growths, successful or not, the fields stay consistent, the
      memory never shrinks or exceeds its maximum, and the app heap keeps its place. */
  lemma {:induction false} GrowthRun(m: Memory, gs: seq<Growth>)
    requires MemoryOk(m)
    ensures MemoryOk(Grown(m, gs)) && SameHeap(m, Grown(m, gs)) && m.dataSize <= Grown(m, gs).dataSize
    decreases |gs|
  {
    if gs != [] {
      EnlargeKeeps(m, gs[0]);
      GrowthRun(Enlarge(m, gs[0]).0, gs[1..]);
    }
  }

  /** The instance that `memory_instantiate` fills in; the allocated size is rounded up to
      the system page. */
  function Instantiated(l: Layout, is64: bool, p: nat, osPage: nat): Memory
    requires l.Layout? && osPage > 0
  {
    var size := l.pageBytes * l.initPages + ToPageEnd(l.pageBytes * l.initPages, osPage);
    Memory(is64, l.pageBytes, l.initPages, l.maxPages, p, p + size, size, p + l.heapOffset,
        p + l.heapOffset + l.heapSize)
  }

  /** Adding the bytes to the page end gives the next multiple of the page. */
  lemma RoundedUp(size: nat, page: nat)
    requires page > 0
    ensures (size + ToPageEnd(size, page)) % page == 0 && ToPageEnd(size, page) < page
  {
    var q, r := size / page, size % page;
    assert size == q * page + r;
    if r != 0 {
      assert (q + 1) * page == q * page + page;
      DivModUnique(size + ToPageEnd(size, page), page, q + 1, 0);
    }
  }

  /** When the module's page is a multiple of the system page, instantiation establishes
      what growth maintains. */
  lemma InstantiatedOk(pageBytes: nat, initPages: nat, l: Layout, is64: bool, p: nat, osPage: nat)
    requires l.Layout? && osPage > 0 && pageBytes % osPage == 0
    requires HeapFits(initPages, l) && l.maxPages < U32 && l.heapSize < U32
    requires l.pageBytes == pageBytes || l.initPages == l.maxPages
    ensures MemoryOk(Instantiated(l, is64, p, osPage))
    ensures var m := Instantiated(l, is64, p, osPage);
            && m.is64 == is64 && m.pageBytes == l.pageBytes && m.curPages == l.initPages && m.maxPages == l.maxPages
            && m.data == p && m.heapData == m.data + l.heapOffset && m.heapEnd == m.heapData + l.heapSize
            && m.dataSize % osPage == 0
            && l.pageBytes * l.initPages <= m.dataSize < l.pageBytes * l.initPages + osPage
  {
    RoundedUp(l.pageBytes * l.initPages, osPage);
    if l.pageBytes == pageBytes {
      var k := pageBytes / osPage;
      assert pageBytes * l.initPages == (k * l.initPages) * osPage by {
        assert pageBytes == k * osPage;
      }
      DivModUnique(pageBytes * l.initPages, osPage, k * l.initPages, 0);
    }
  }

  lemma LayoutBounded(page: nat, init: nat, max: nat, heap: nat, aux: Option<nat>, is64: bool)
    requires 2 * KB <= page && heap < U32 && init <= max <= DefaultMaxPages(is64)
    requires LayoutOf(page, init, max, heap, aux, is64).Layout?
    ensures LayoutOf(page, init, max, heap, aux, is64).maxPages < U32
    ensures LayoutOf(page, init, max, heap, aux, is64).heapSize < U32
  {
    if heap > 0 && !OneFixedPage(init, max) {
      Planned(page, init, max, heap, aux, is64);
      if CountExact(page, heap, None) {
        CeilDivBounds(heap, page);
      }
    }
  }

  /** From insertion to growth: a layout that is returned with page counts that do not wrap and
      a heap that is not left outside gives a consistent memory, which every sequence of
      growths keeps consistent with its app heap in place. */
  lemma InsertedGrows(page: nat, init: nat, max: nat, heap: nat, aux: Option<nat>, is64: bool,
                      p: nat, osPage: nat, gs: seq<Growth>)
    requires 2 * KB <= page < U32 && heap < U32 - 1 && init <= max <= DefaultMaxPages(is64)
    requires osPage > 0 && page % osPage == 0 && LayoutOf(page, init, max, heap, aux, is64).Layout?
    requires max + AddedPages(page, init, max, heap, aux) < U32 && !HeapOutside(page, init, max, heap, aux)
    ensures var m := Instantiated(LayoutOf(page, init, max, heap, aux, is64), is64, p, osPage);
            var r := Grown(m, gs);
            && MemoryOk(m) && MemoryOk(r) && SameHeap(m, r) && m.data == p
            && r.heapData - r.data == (if m.heapData < p + page * init then aux.value else page * init)
            && r.heapEnd - r.heapData == LayoutOf(page, init, max, heap, aux, is64).heapSize
  {
    PlaceExact(page, init, max, heap, aux, is64);
    var l := LayoutOf(page, init, max, heap, aux, is64);
    FitExact(page, init, max, heap, aux, is64);
    LayoutBounded(page, init, max, heap, aux, is64);
    InstantiatedOk(page, init, l, is64, p, osPage);
    GrowthRun(Instantiated(l, is64, p, osPage), gs);
  }
}
