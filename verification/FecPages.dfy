/** The pages behind the FEC driver's receive buffers (staging/edrv/EdrvFec.c): each page is cut into
    buffers, the buffers are spread over ring and stack, and at the end a page is freed when a buffer
    at its start is met, wherever the interrupts have moved that buffer meanwhile. */
module FecPages {
  import opened Common
  import Gf2
  import R = FecRxRing

  const EDRV_RX_BUFFER_SIZE := 2048

  /** Receive buffers in a page.  The page sizes from 2 KB to 32 KB give a ring smaller than the pool. */
  type FramesPerPage = k: nat | 1 <= k <= 16 witness 2

  function PageSize(k: FramesPerPage): nat {
    k * EDRV_RX_BUFFER_SIZE
  }

  /** `address & ((1UL << PAGE_SHIFT) - 1)`, by taking whole pages off. */
  function PageOffset(x: R.Addr, k: FramesPerPage): int
    decreases x
  {
    if x < PageSize(k) then x else PageOffset(x - PageSize(k), k)
  }

  /** It is the remainder by the page size. */
  lemma {:induction false} PageOffsetIsRemainder(x: R.Addr, k: FramesPerPage)
    requires x >= 0
    ensures PageOffset(x, k) == x % PageSize(k)
    decreases x
  {
    var m := PageSize(k);
    if x >= m {
      PageOffsetIsRemainder(x - m, k);
      var q, r := (x - m) / m, (x - m) % m;
      assert x - m == q * m + r;
      assert x == (q + 1) * m + r;
      Gf2.DivUnique(x, m, q + 1, r);
    } else {
      Gf2.DivUnique(x, m, 0, x);
    }
  }

  /** FEC_ENET_RX_FRPPG * FEC_ENET_RX_PAGES */
  function RxRingSize(k: FramesPerPage): nat {
    k * 8
  }

  /** The buffers cut out of a page from address p on. */
  function Cut(p: R.Addr, n: nat): seq<R.Addr>
    decreases n
  {
    if n == 0 then [] else [p] + Cut(p + EDRV_RX_BUFFER_SIZE, n - 1)
  }

  function Buffers(pages: seq<R.Addr>, k: FramesPerPage): seq<R.Addr> {
    if pages == [] then [] else Buffers(pages[..|pages| - 1], k) + Cut(pages[|pages| - 1], k)
  }

  /** What the page allocator answers: page addresses, none twice, none null. */
  predicate Pages(pages: seq<R.Addr>, k: FramesPerPage) {
    && |Buffers(pages, k)| == R.EDRV_MAX_RX_BUFFERS
    && (forall i :: 0 <= i < |pages| ==> pages[i] > 0 && PageOffset(pages[i], k) == 0)
    && (forall i, j :: 0 <= i < j < |pages| ==> pages[i] != pages[j])
  }

  /** The buffers whose address is that of a page, in order. */
  function PageStarts(bufs: seq<R.Addr>, k: FramesPerPage): seq<R.Addr> {
    if bufs == [] then []
    else PageStarts(bufs[..|bufs| - 1], k)
         + (if PageOffset(bufs[|bufs| - 1], k) == 0 then [bufs[|bufs| - 1]] else [])
  }

  /** The descriptors that have a buffer. */
  function NonZero(bufs: seq<R.Addr>): seq<R.Addr> {
    if bufs == [] then []
    else NonZero(bufs[..|bufs| - 1]) + (if bufs[|bufs| - 1] != 0 then [bufs[|bufs| - 1]] else [])
  }

  function Reversed(s: seq<R.Addr>): seq<R.Addr> {
    if s == [] then [] else [s[|s| - 1]] + Reversed(s[..|s| - 1])
  }

  lemma {:induction false} CutLength(p: R.Addr, n: nat)
    ensures |Cut(p, n)| == n
    ensures forall j :: 0 <= j < n ==> Cut(p, n)[j] == p + j * EDRV_RX_BUFFER_SIZE
    decreases n
  {
    if n > 0 {
      CutLength(p + EDRV_RX_BUFFER_SIZE, n - 1);
    }
  }

  lemma {:induction false} BuffersPrefix(pages: seq<R.Addr>, i: nat, k: FramesPerPage)
    requires i <= |pages|
    ensures |Buffers(pages[..i], k)| <= |Buffers(pages, k)|
    ensures |Buffers(pages[..i], k)| == |Buffers(pages, k)| ==> i == |pages|
    decreases |pages|
  {
    if i == |pages| {
      assert pages[..i] == pages;
    } else {
      var front := pages[..|pages| - 1];
      assert pages[..i] == front[..i];
      BuffersPrefix(front, i, k);
      CutLength(pages[|pages| - 1], k);
    }
  }

  lemma CutStep(before: seq<R.Addr>, p: R.Addr, n: nat)
    requires n > 0
    ensures before + Cut(p, n) == before + [p] + Cut(p + EDRV_RX_BUFFER_SIZE, n - 1)
  {
  }

  /** The buffers of one page go to the ring as long as it has room, then to the stack. */
  method StorePage(page: R.Addr, k: FramesPerPage, ring: seq<R.Addr>, stack: seq<R.Addr>)
    returns (apbDescRxBuffer: seq<R.Addr>, apbFreeRxBuffer: seq<R.Addr>)
    requires |ring| <= RxRingSize(k) && (stack != [] ==> |ring| == RxRingSize(k))
    ensures |apbDescRxBuffer| <= RxRingSize(k)
    ensures apbFreeRxBuffer != [] ==> |apbDescRxBuffer| == RxRingSize(k)
    ensures apbDescRxBuffer + apbFreeRxBuffer == ring + stack + Cut(page, k)
  {
    var ulBufferPointer := page;
    var nRxBuffer := |ring| + |stack|;
    apbDescRxBuffer, apbFreeRxBuffer := ring, stack;
    for nInAlloc := 0 to k
      invariant nRxBuffer == |apbDescRxBuffer| + |apbFreeRxBuffer|
      invariant |apbDescRxBuffer| <= RxRingSize(k)
      invariant apbFreeRxBuffer != [] ==> |apbDescRxBuffer| == RxRingSize(k)
      invariant apbDescRxBuffer + apbFreeRxBuffer + Cut(ulBufferPointer, k - nInAlloc) == ring + stack + Cut(page, k)
    {
      ghost var before := apbDescRxBuffer + apbFreeRxBuffer;
      CutStep(before, ulBufferPointer, k - nInAlloc);
      if nRxBuffer < RxRingSize(k) {
        apbDescRxBuffer := apbDescRxBuffer + [ulBufferPointer];
      } else {
        apbFreeRxBuffer := apbFreeRxBuffer + [ulBufferPointer];
      }
      assert apbDescRxBuffer + apbFreeRxBuffer == before + [ulBufferPointer];
      nRxBuffer := nRxBuffer + 1;
      ulBufferPointer := ulBufferPointer + EDRV_RX_BUFFER_SIZE;
    }
  }

  /** The slots of m_apbFreeRxBuffer: one more than there are buffers outside the ring. */
  function StackSlots(k: FramesPerPage): nat {
    R.EDRV_MAX_RX_BUFFERS - RxRingSize(k) + 1
  }

  /** The buffers that do not fit into the ring. */
  function BehindRing(bufs: seq<R.Addr>, k: FramesPerPage): seq<R.Addr> {
    if |bufs| <= RxRingSize(k) then [] else bufs[RxRingSize(k)..]
  }

  /** The slots after buffers have been stored in them from the first on. */
  function WrittenOver(slots: seq<R.Addr>, stored: seq<R.Addr>): (r: seq<R.Addr>)
    requires |stored| <= |slots|
    ensures |r| == |slots|
  {
    stored + slots[|stored|..]
  }

  /** What fec_free_buffers finds when page allocation fails after some pages: the descriptors and the stack
      top as they were before the call, but the slots already written over. */
  function FreedOnFailure(got: seq<R.Addr>, k: FramesPerPage, ring: seq<R.Descriptor>, slots: seq<R.Addr>, top: int)
    : seq<R.Addr>
    requires -1 <= top < |slots| && |BehindRing(Buffers(got, k), k)| <= |slots|
  {
    PageStarts(NonZero(R.Buffers(ring)), k)
    + PageStarts(Reversed(WrittenOver(slots, BehindRing(Buffers(got, k), k))[..top + 1]), k)
  }

  lemma GotFits(pages: seq<R.Addr>, granted: nat, k: FramesPerPage)
    requires Pages(pages, k) && granted <= |pages|
    ensures |BehindRing(Buffers(pages[..granted], k), k)| < StackSlots(k)
  {
    BuffersPrefix(pages, granted, k);
  }

  /** The loops over pages and buffers.  The allocator answers null after as many pages as granted. */
  method GetPages(pages: seq<R.Addr>, granted: nat, k: FramesPerPage)
    returns (apbDescRxBuffer: seq<R.Addr>, apbFreeRxBuffer: seq<R.Addr>, taken: nat)
    requires Pages(pages, k)
    ensures taken == if granted < |pages| then granted else |pages|
    ensures apbDescRxBuffer + apbFreeRxBuffer == Buffers(pages[..taken], k)
    ensures |apbDescRxBuffer| <= RxRingSize(k) && (apbFreeRxBuffer != [] ==> |apbDescRxBuffer| == RxRingSize(k))
    ensures granted >= |pages| ==> |apbDescRxBuffer| == RxRingSize(k)
  {
    apbDescRxBuffer, apbFreeRxBuffer, taken := [], [], 0;
    var nRxBuffer := 0;
    while nRxBuffer < R.EDRV_MAX_RX_BUFFERS
      invariant taken <= granted && taken <= |pages|
      invariant nRxBuffer == |apbDescRxBuffer| + |apbFreeRxBuffer|
      invariant |apbDescRxBuffer| <= RxRingSize(k)
      invariant apbFreeRxBuffer != [] ==> |apbDescRxBuffer| == RxRingSize(k)
      invariant apbDescRxBuffer + apbFreeRxBuffer == Buffers(pages[..taken], k)
      decreases |pages| - taken
    {
      assert pages[..|pages|] == pages;
      var ulBufferPointer := if taken < granted then pages[taken] else 0;
      if ulBufferPointer == 0 {
        return;
      }
      assert pages[..taken + 1][..taken] == pages[..taken];
      taken := taken + 1;
      CutLength(ulBufferPointer, k);
      ghost var before := apbDescRxBuffer + apbFreeRxBuffer;
      apbDescRxBuffer, apbFreeRxBuffer := StorePage(ulBufferPointer, k, apbDescRxBuffer, apbFreeRxBuffer);
      assert |apbDescRxBuffer + apbFreeRxBuffer| == |before| + k;
      nRxBuffer := nRxBuffer + k;
    }
    assert |apbDescRxBuffer + apbFreeRxBuffer| == nRxBuffer;
    BuffersPrefix(pages, taken, k);
  }

  /** The page half of fec_alloc_buffers, on a driver with the given descriptors, stack slots and stack top. */
  method FecAllocBuffers(pages: seq<R.Addr>, granted: nat, k: FramesPerPage,
                         ring: seq<R.Descriptor>, slots: seq<R.Addr>, top: int)
    returns (ok: bool, apbDescRxBuffer: seq<R.Addr>, apbFreeRxBuffer: seq<R.Addr>, freed: seq<R.Addr>,
             iPageAllocations: int)
    requires Pages(pages, k) && -1 <= top < |slots| == StackSlots(k)
    ensures ok <==> granted >= |pages|
    ensures ok ==>
      && apbDescRxBuffer + apbFreeRxBuffer == Buffers(pages, k)
      && |apbDescRxBuffer| == RxRingSize(k)
      && iPageAllocations == |pages|
      && freed == []
    ensures !ok ==>
      && |BehindRing(Buffers(pages[..granted], k), k)| <= |slots|
      && freed == FreedOnFailure(pages[..granted], k, ring, slots, top)
      && iPageAllocations == granted - |freed|
  {
    apbDescRxBuffer, apbFreeRxBuffer, iPageAllocations := GetPages(pages, granted, k);
    freed, ok := [], |apbDescRxBuffer| + |apbFreeRxBuffer| >= R.EDRV_MAX_RX_BUFFERS;
    assert |apbDescRxBuffer + apbFreeRxBuffer| == |apbDescRxBuffer| + |apbFreeRxBuffer|;
    BuffersPrefix(pages, iPageAllocations, k);
    assert pages[..|pages|] == pages;
    if !ok {
      GotFits(pages, granted, k);
      assert apbFreeRxBuffer == BehindRing(apbDescRxBuffer + apbFreeRxBuffer, k);
      var m_apbFreeRxBuffer := WrittenOver(slots, apbFreeRxBuffer);
      freed, iPageAllocations := FecFreeBuffers(ring, m_apbFreeRxBuffer[..top + 1], iPageAllocations, k);
    }
  }

  lemma PageStartsSnoc(bufs: seq<R.Addr>, x: R.Addr, k: FramesPerPage)
    ensures PageStarts(bufs + [x], k) == PageStarts(bufs, k) + (if PageOffset(x, k) == 0 then [x] else [])
  {
    assert (bufs + [x])[..|bufs|] == bufs;
  }

  lemma NonZeroSnoc(bufs: seq<R.Addr>, x: R.Addr)
    ensures NonZero(bufs + [x]) == if x != 0 then NonZero(bufs) + [x] else NonZero(bufs)
  {
    assert (bufs + [x])[..|bufs|] == bufs;
  }

  lemma RingPrefix(bufs: seq<R.Addr>, n: nat, k: FramesPerPage)
    requires n < |bufs|
    ensures PageStarts(NonZero(bufs[..n + 1]), k)
         == PageStarts(NonZero(bufs[..n]), k) + if bufs[n] != 0 && PageOffset(bufs[n], k) == 0 then [bufs[n]] else []
  {
    NonZeroSnoc(bufs[..n], bufs[n]);
    assert bufs[..n + 1] == bufs[..n] + [bufs[n]];
    PageStartsSnoc(NonZero(bufs[..n]), bufs[n], k);
  }

  /** The loop of fec_free_buffers over the ring.  freed lists the pages given to free_pages. */
  method FreeRing(ring: seq<R.Descriptor>, pageAllocations: int, k: FramesPerPage)
    returns (freed: seq<R.Addr>, iPageAllocations: int)
    ensures freed == PageStarts(NonZero(R.Buffers(ring)), k)
    ensures iPageAllocations == pageAllocations - |freed|
  {
    freed, iPageAllocations := [], pageAllocations;
    ghost var bufs := R.Buffers(ring);
    for nRxBuffer := 0 to |ring|
      invariant freed == PageStarts(NonZero(bufs[..nRxBuffer]), k)
      invariant iPageAllocations == pageAllocations - |freed|
    {
      RingPrefix(bufs, nRxBuffer, k);
      if ring[nRxBuffer].buf != 0 {
        var ulBufferPointer := ring[nRxBuffer].buf;
        if PageOffset(ulBufferPointer, k) == 0 {
          freed := freed + [ulBufferPointer];
          iPageAllocations := iPageAllocations - 1;
        }
      }
    }
    assert bufs[..|ring|] == bufs;
  }

  /** The loop of fec_free_buffers over the stack, from its top down. */
  method FreeStack(apbFreeRxBuffer: seq<R.Addr>, pageAllocations: int, k: FramesPerPage)
    returns (freed: seq<R.Addr>, iPageAllocations: int)
    ensures freed == PageStarts(Reversed(apbFreeRxBuffer), k)
    ensures iPageAllocations == pageAllocations - |freed|
  {
    freed, iPageAllocations := [], pageAllocations;
    var top := |apbFreeRxBuffer| - 1;
    ghost var popped: seq<R.Addr> := [];
    assert apbFreeRxBuffer[..top + 1] == apbFreeRxBuffer;
    while top >= 0
      invariant -1 <= top < |apbFreeRxBuffer|
      invariant popped + Reversed(apbFreeRxBuffer[..top + 1]) == Reversed(apbFreeRxBuffer)
      invariant freed == PageStarts(popped, k)
      invariant iPageAllocations == pageAllocations - |freed|
    {
      var ulBufferPointer := apbFreeRxBuffer[top];
      assert apbFreeRxBuffer[..top + 1][..top] == apbFreeRxBuffer[..top];
      ghost var rest := Reversed(apbFreeRxBuffer[..top]);
      assert popped + ([ulBufferPointer] + rest) == (popped + [ulBufferPointer]) + rest;
      PageStartsSnoc(popped, ulBufferPointer, k);
      popped := popped + [ulBufferPointer];
      if PageOffset(ulBufferPointer, k) == 0 {
        freed := freed + [ulBufferPointer];
        iPageAllocations := iPageAllocations - 1;
      }
      top := top - 1;
    }
    assert popped + [] == popped;
  }

  method FecFreeBuffers(ring: seq<R.Descriptor>, apbFreeRxBuffer: seq<R.Addr>, pageAllocations: int, k: FramesPerPage)
    returns (freed: seq<R.Addr>, iPageAllocations: int)
    ensures freed == PageStarts(NonZero(R.Buffers(ring)), k) + PageStarts(Reversed(apbFreeRxBuffer), k)
    ensures iPageAllocations == pageAllocations - |freed|
  {
    var fromStack;
    freed, iPageAllocations := FreeRing(ring, pageAllocations, k);
    fromStack, iPageAllocations := FreeStack(apbFreeRxBuffer, iPageAllocations, k);
    freed := freed + fromStack;
  }

  // ----- what is freed

  lemma {:induction false} CountPageStarts(bufs: seq<R.Addr>, k: FramesPerPage, x: R.Addr)
    ensures multiset(PageStarts(bufs, k))[x] == if PageOffset(x, k) == 0 then multiset(bufs)[x] else 0
    decreases |bufs|
  {
    if bufs != [] {
      var front, last := bufs[..|bufs| - 1], bufs[|bufs| - 1];
      CountPageStarts(front, k, x);
      assert bufs == front + [last];
    }
  }

  lemma {:induction false} CountNonZero(bufs: seq<R.Addr>, x: R.Addr)
    ensures multiset(NonZero(bufs))[x] == if x != 0 then multiset(bufs)[x] else 0
    decreases |bufs|
  {
    if bufs != [] {
      var front, last := bufs[..|bufs| - 1], bufs[|bufs| - 1];
      CountNonZero(front, x);
      assert bufs == front + [last];
    }
  }

  lemma {:induction false} ReversedIsPermutation(s: seq<R.Addr>)
    ensures multiset(Reversed(s)) == multiset(s)
    decreases |s|
  {
    if s != [] {
      var front := s[..|s| - 1];
      ReversedIsPermutation(front);
      assert s == front + [s[|s| - 1]];
    }
  }

  /** From the top down. */
  lemma {:induction false} ReversedAt(s: seq<R.Addr>, k: nat)
    requires k < |s|
    ensures |Reversed(s)| == |s| && Reversed(s)[k] == s[|s| - 1 - k]
    decreases |s|
  {
    var front := s[..|s| - 1];
    if k > 0 {
      ReversedAt(front, k - 1);
    } else if |front| > 0 {
      ReversedAt(front, 0);
    }
  }

  /** The start of the page that holds address x. */
  function PageOf(x: R.Addr, k: FramesPerPage): R.Addr {
    x - PageOffset(x, k)
  }

  lemma {:induction false} OffsetInPage(p: R.Addr, y: int, k: FramesPerPage)
    requires p >= 0 && PageOffset(p, k) == 0 && 0 <= y < PageSize(k)
    ensures PageOffset(p + y, k) == y
    decreases p
  {
    if p >= PageSize(k) {
      OffsetInPage(p - PageSize(k), y, k);
    }
  }

  lemma {:induction false} OffsetRange(x: R.Addr, k: FramesPerPage)
    requires x >= 0
    ensures 0 <= PageOffset(x, k) < PageSize(k)
    ensures x >= PageOffset(x, k)
    decreases x
  {
    if x >= PageSize(k) {
      OffsetRange(x - PageSize(k), k);
    }
  }

  /** Whether x is where a buffer of page p starts. */
  predicate BufferOf(p: R.Addr, x: R.Addr, k: FramesPerPage) {
    x >= 0 && PageOf(x, k) == p && PageOffset(x, k) % EDRV_RX_BUFFER_SIZE == 0
  }

  lemma {:induction false} CutMembers(p: R.Addr, n: nat, x: R.Addr)
    ensures multiset(Cut(p, n))[x]
         == if p <= x < p + n * EDRV_RX_BUFFER_SIZE && (x - p) % EDRV_RX_BUFFER_SIZE == 0 then 1 else 0
    decreases n
  {
    if n > 0 {
      CutMembers(p + EDRV_RX_BUFFER_SIZE, n - 1, x);
    }
  }

  /** A page contributes each buffer address in it once. */
  lemma CutCount(p: R.Addr, k: FramesPerPage, x: R.Addr)
    requires p > 0 && PageOffset(p, k) == 0
    ensures multiset(Cut(p, k))[x] == if BufferOf(p, x, k) then 1 else 0
  {
    CutMembers(p, k, x);
    if p <= x < p + PageSize(k) {
      OffsetInPage(p, x - p, k);
    }
    if x >= 0 {
      OffsetRange(x, k);
    }
  }

  lemma CountConcat(a: seq<R.Addr>, b: seq<R.Addr>, x: R.Addr)
    ensures multiset(a + b)[x] == multiset(a)[x] + multiset(b)[x]
  {
  }

  /** Page p gives buffer x once if it is the home of x, and otherwise not. */
  ghost predicate Gives(p: R.Addr, k: FramesPerPage, x: R.Addr, home: R.Addr, fits: bool) {
    multiset(Cut(p, k))[x] == if fits && p == home then 1 else 0
  }

  /** The buffers of these pages hold buffer x as often as the pages hold its home. */
  ghost predicate AllGive(pages: seq<R.Addr>, k: FramesPerPage, x: R.Addr, home: R.Addr, fits: bool) {
    multiset(Buffers(pages, k))[x] == if fits then multiset(pages)[home] else 0
  }

  lemma AddPage(front: seq<R.Addr>, last: R.Addr, pages: seq<R.Addr>, k: FramesPerPage, x: R.Addr, home: R.Addr,
                fits: bool)
    requires pages == front + [last]
    requires AllGive(front, k, x, home, fits) && Gives(last, k, x, home, fits)
    ensures AllGive(pages, k, x, home, fits)
  {
    assert pages[..|front|] == front;
    CountConcat(Buffers(front, k), Cut(last, k), x);
    CountConcat(front, [last], home);
    assert multiset([last])[home] == if last == home then 1 else 0;
  }

  /** Summing up over pages. */
  lemma {:induction false} CountFromPages(pages: seq<R.Addr>, k: FramesPerPage, x: R.Addr, home: R.Addr, fits: bool)
    requires forall i :: 0 <= i < |pages| ==> Gives(pages[i], k, x, home, fits)
    ensures AllGive(pages, k, x, home, fits)
    decreases |pages|
  {
    if pages != [] {
      var front, last := pages[..|pages| - 1], pages[|pages| - 1];
      CountFromPages(front, k, x, home, fits);
      AddPage(front, last, pages, k, x, home, fits);
    }
  }

  lemma BufferCount(pages: seq<R.Addr>, k: FramesPerPage, x: R.Addr)
    requires forall i :: 0 <= i < |pages| ==> pages[i] > 0 && PageOffset(pages[i], k) == 0
    ensures multiset(Buffers(pages, k))[x] == if BufferOf(PageOf(x, k), x, k) then multiset(pages)[PageOf(x, k)] else 0
  {
    forall i | 0 <= i < |pages|
      ensures Gives(pages[i], k, x, PageOf(x, k), BufferOf(PageOf(x, k), x, k))
    {
      CutCount(pages[i], k, x);
    }
    CountFromPages(pages, k, x, PageOf(x, k), BufferOf(PageOf(x, k), x, k));
  }

  /** Of distinct pages all buffers are distinct, so the driver starts with every buffer at one place. */
  lemma BuffersAreDistinct(pages: seq<R.Addr>, k: FramesPerPage)
    requires Pages(pages, k)
    ensures multiset(Buffers(pages, k)) == multiset(set b | b in Buffers(pages, k))
  {
    var all := set b | b in Buffers(pages, k);
    forall x: R.Addr
      ensures multiset(Buffers(pages, k))[x] == multiset(all)[x]
    {
      BufferCount(pages, k, x);
      DistinctIsSet(pages, PageOf(x, k));
    }
  }

  lemma {:induction false} DistinctIsSet(pages: seq<R.Addr>, x: R.Addr)
    requires forall i, j :: 0 <= i < j < |pages| ==> pages[i] != pages[j]
    ensures multiset(pages)[x] == if x in pages then 1 else 0
    decreases |pages|
  {
    if pages != [] {
      var front, last := pages[..|pages| - 1], pages[|pages| - 1];
      DistinctIsSet(front, x);
      assert pages == front + [last];
    }
  }

  /** The pages whose first buffer the upper layer holds. */
  ghost function HeldPages(pages: seq<R.Addr>, held: multiset<R.Addr>): set<R.Addr> {
    set p | p in pages && p in held
  }

  /** Main result: after any receive run within the reserve that ends between frames, freeing the
      buffers frees every page once whose first buffer came back, and leaves in the count exactly the
      pages whose first buffer the upper layer still holds. */
  lemma PagesFreedOnce(s: R.State, run: seq<R.Label>, all: set<R.Addr>, pages: seq<R.Addr>, k: FramesPerPage,
                       freed: seq<R.Addr>)
    requires Pages(pages, k) && R.Start(s, all) && multiset(all) == multiset(Buffers(pages, k))
    requires R.Execute(s, run).Some? && R.WithinReserve(s, run)
    requires var t := R.Execute(s, run).value;
             t.phase == R.Polling
             && freed == PageStarts(NonZero(R.Buffers(t.ring)), k) + PageStarts(Reversed(t.freeStack), k)
    ensures var held := R.Execute(s, run).value.held;
            multiset(freed) + multiset(HeldPages(pages, held)) == multiset(pages)
  {
    var t := R.Execute(s, run).value;
    R.ConservedExactlyWhen(s, run, all);
    forall x: R.Addr
      ensures (multiset(freed) + multiset(HeldPages(pages, t.held)))[x] == multiset(pages)[x]
    {
      assert multiset(all)[x] == multiset(Buffers(pages, k))[x];
      PageFreedOnce(t, pages, k, freed, x);
    }
  }

  /** For one address: freed once if it is a page and its first buffer is at a place other than the
      upper layer. */
  lemma PageFreedOnce(t: R.State, pages: seq<R.Addr>, k: FramesPerPage, freed: seq<R.Addr>, x: R.Addr)
    requires Pages(pages, k) && R.WellFormed(t) && t.phase == R.Polling
    requires R.Places(t, x) == multiset(Buffers(pages, k))[x] as int
    requires freed == PageStarts(NonZero(R.Buffers(t.ring)), k) + PageStarts(Reversed(t.freeStack), k)
    ensures (multiset(freed) + multiset(HeldPages(pages, t.held)))[x] == multiset(pages)[x]
  {
    DistinctIsSet(pages, x);
    if PageOffset(x, k) == 0 {
      PageIsABuffer(pages, k, x);
    }
    FreedCount(t, k, x);
  }

  /** A page is among the buffers as often as among the pages. */
  lemma PageIsABuffer(pages: seq<R.Addr>, k: FramesPerPage, x: R.Addr)
    requires Pages(pages, k) && PageOffset(x, k) == 0
    ensures multiset(Buffers(pages, k))[x] == multiset(pages)[x]
    ensures x == 0 ==> multiset(pages)[x] == 0
  {
    BufferCount(pages, k, x);
    assert BufferOf(PageOf(x, k), x, k);
  }

  /** How often page x is freed between frames. */
  lemma FreedCount(t: R.State, k: FramesPerPage, x: R.Addr)
    requires R.WellFormed(t) && t.phase == R.Polling && (x == 0 ==> R.Places(t, x) == 0)
    ensures multiset(PageStarts(NonZero(R.Buffers(t.ring)), k) + PageStarts(Reversed(t.freeStack), k))[x] as int
         == if PageOffset(x, k) == 0 then R.Places(t, x) - t.held[x] as int else 0
  {
    CountNonZero(R.Buffers(t.ring), x);
    CountPageStarts(NonZero(R.Buffers(t.ring)), k, x);
    CountPageStarts(Reversed(t.freeStack), k, x);
    ReversedIsPermutation(t.freeStack);
  }

  /** Main result, for every run, also beyond the reserve: a page is freed as often as its first buffer is
      found in the ring and on the stack, so more than once exactly if it is found there twice. */
  lemma PageFreedAsOftenAsFound(t: R.State, k: FramesPerPage, freed: seq<R.Addr>, page: R.Addr)
    requires R.WellFormed(t) && t.phase == R.Polling && page > 0 && PageOffset(page, k) == 0
    requires freed == PageStarts(NonZero(R.Buffers(t.ring)), k) + PageStarts(Reversed(t.freeStack), k)
    ensures multiset(freed)[page] as int == R.InRing(t, page) + multiset(t.freeStack)[page] as int
  {
    FreedCount(t, k, page);
  }

  /** It does happen, to every page: from the start that the allocation makes, there is a run after which this
      page is freed twice. */
  lemma PageFreedTwice(s: R.State, all: set<R.Addr>, pages: seq<R.Addr>, k: FramesPerPage, page: R.Addr)
    returns (run: seq<R.Label>, t: R.State, freed: seq<R.Addr>)
    requires Pages(pages, k) && page in pages
    requires R.Start(s, all) && R.Buffers(s.ring) + s.freeStack == Buffers(pages, k)
    ensures R.Execute(s, run) == Some(t) && t.phase == R.Polling
    ensures freed == PageStarts(NonZero(R.Buffers(t.ring)), k) + PageStarts(Reversed(t.freeStack), k)
    ensures multiset(freed)[page] >= 2
  {
    PageIsABuffer(pages, k, page);
    assert page in multiset(R.Buffers(s.ring) + s.freeStack);
    assert page in multiset(all);
    run, t := R.BufferIsDoubled(s, all, page);
    freed := PageStarts(NonZero(R.Buffers(t.ring)), k) + PageStarts(Reversed(t.freeStack), k);
    PageFreedAsOftenAsFound(t, k, freed, page);
  }

  /** In numbers: m_iPageAllocations ends at the number of pages still held, so at zero exactly if no
      buffer at the start of a page is missing. */
  lemma PageAllocationsAtEnd(freed: seq<R.Addr>, pages: seq<R.Addr>, held: multiset<R.Addr>)
    requires multiset(freed) + multiset(HeldPages(pages, held)) == multiset(pages)
    ensures |pages| - |freed| == |HeldPages(pages, held)|
    ensures |pages| - |freed| == 0 <==> forall p :: p in pages ==> p !in held
  {
    var lost := HeldPages(pages, held);
    assert |multiset(freed)| == |freed| && |multiset(pages)| == |pages| && |multiset(lost)| == |lost|;
    assert |multiset(freed) + multiset(lost)| == |freed| + |lost|;
    if forall p :: p in pages ==> p !in held {
      assert lost == {};
    } else {
      var p :| p in pages && p in held;
      assert p in lost;
    }
  }

  /** Main result, over the whole life of the buffers: they are allocated, any run follows in which releases
      find a slot, and they are freed, each page as often as its first buffer is found.  If the run was within the reserve,
      m_iPageAllocations then is the number of pages whose first buffer is still held, zero if there is
      none; and if nothing is held, each page has been freed exactly once. */
  method Lifetime(pages: seq<R.Addr>, k: FramesPerPage, ring: seq<R.Descriptor>, slots: seq<R.Addr>, top: int)
    returns (freed: seq<R.Addr>, iPageAllocations: int, ghost s: R.State, ghost run: seq<R.Label>, ghost t: R.State)
    requires Pages(pages, k) && -1 <= top < |slots| == StackSlots(k)
    ensures iPageAllocations == |pages| - |freed|
    ensures R.Buffers(s.ring) + s.freeStack == Buffers(pages, k) && R.RoomyRun(s, run, t)
    ensures forall p :: p in pages ==>
              multiset(freed)[p] as int == R.InRing(t, p) + multiset(t.freeStack)[p] as int
    ensures R.WithinReserve(s, run) ==>
      && iPageAllocations == |HeldPages(pages, t.held)|
      && (iPageAllocations == 0 <==> forall p :: p in pages ==> p !in t.held)
    ensures R.WithinReserve(s, run) && t.held == multiset{} ==>
      multiset(freed) == multiset(pages) && iPageAllocations == 0
  {
    var ok, apbDescRxBuffer, apbFreeRxBuffer;
    ok, apbDescRxBuffer, apbFreeRxBuffer, freed, iPageAllocations :=
      FecAllocBuffers(pages, |pages|, k, ring, slots, top);
    var fep := new R.FecEnet(apbDescRxBuffer, apbFreeRxBuffer);
    s := fep.StateAt(fep.curRx);
    ghost var all := set b | b in Buffers(pages, k);
    BuffersAreDistinct(pages, k);
    assert multiset(apbDescRxBuffer) + multiset(apbFreeRxBuffer) == multiset(all);
    run := fep.Operate();
    t := fep.StateAt(fep.curRx);
    freed, iPageAllocations := FecFreeBuffers(fep.rxBd[..], fep.apbFreeRxBuffer[..fep.iFreeRxBufferTop + 1],
                                              iPageAllocations, k);
    LifetimeEnds(s, run, t, all, pages, k, freed);
  }

  lemma LifetimeEnds(s: R.State, run: seq<R.Label>, t: R.State, all: set<R.Addr>, pages: seq<R.Addr>,
                     k: FramesPerPage, freed: seq<R.Addr>)
    requires Pages(pages, k) && R.Start(s, all) && multiset(all) == multiset(Buffers(pages, k))
    requires R.Execute(s, run) == Some(t) && R.WellFormed(t) && t.phase == R.Polling
    requires freed == PageStarts(NonZero(R.Buffers(t.ring)), k) + PageStarts(Reversed(t.freeStack), k)
    ensures forall p :: p in pages ==>
              multiset(freed)[p] as int == R.InRing(t, p) + multiset(t.freeStack)[p] as int
    ensures R.WithinReserve(s, run) ==>
      && |pages| - |freed| == |HeldPages(pages, t.held)|
      && (|pages| == |freed| <==> forall p :: p in pages ==> p !in t.held)
    ensures R.WithinReserve(s, run) && t.held == multiset{} ==>
      multiset(freed) == multiset(pages) && |pages| == |freed|
  {
    forall p | p in pages
      ensures multiset(freed)[p] as int == R.InRing(t, p) + multiset(t.freeStack)[p] as int
    {
      PageFreedAsOftenAsFound(t, k, freed, p);
    }
    if R.WithinReserve(s, run) {
      PagesFreedOnce(s, run, all, pages, k, freed);
      PageAllocationsAtEnd(freed, pages, t.held);
      assert t.held == multiset{} ==> HeldPages(pages, t.held) == {};
    }
  }

  // ----- when memory runs out

  lemma {:induction false} BuffersLength(pages: seq<R.Addr>, k: FramesPerPage)
    ensures |Buffers(pages, k)| == |pages| * k
    decreases |pages|
  {
    if pages != [] {
      BuffersLength(pages[..|pages| - 1], k);
      CutLength(pages[|pages| - 1], k);
      assert |pages| * k == (|pages| - 1) * k + k;
    }
  }

  lemma {:induction false} PageStartsAt(pages: seq<R.Addr>, k: FramesPerPage, i: nat)
    requires i < |pages|
    ensures i * k < |Buffers(pages, k)|
    ensures Buffers(pages, k)[i * k] == pages[i]
    decreases |pages|
  {
    var front := pages[..|pages| - 1];
    BuffersLength(front, k);
    CutLength(pages[|pages| - 1], k);
    if i < |front| {
      PageStartsAt(front, k, i);
    }
  }

  /** What occurs once in a sequence occurs in a slice exactly if its index is in there. */
  lemma OnceInSlice(s: seq<R.Addr>, j: nat, lo: nat, hi: nat)
    requires j < |s| && multiset(s)[s[j]] == 1 && lo <= hi <= |s|
    ensures multiset(s[lo..hi])[s[j]] == if lo <= j < hi then 1 else 0
  {
    var x := s[j];
    assert s == s[..lo] + s[lo..hi] + s[hi..];
    assert multiset(s)[x] == multiset(s[..lo])[x] + multiset(s[lo..hi])[x] + multiset(s[hi..])[x];
    if j < lo {
      assert s[..lo][j] == x;
    } else if j < hi {
      assert s[lo..hi][j - lo] == x;
    } else {
      assert s[hi..][j - hi] == x;
    }
  }

  lemma BehindRingIndex(k: FramesPerPage, i: nat)
    ensures i * k == 8 * k + (i - 8) * k
    ensures i >= 8 <==> i * k >= RxRingSize(k)
    ensures i >= 8 ==> (i - 8) * k >= 0
  {
    assert (i - 8) * k == i * k - 8 * k;
    if i < 8 {
      assert (8 - i) * k >= 1;
    }
  }

  /** What was written to the slots at or below the stack top. */
  function LowSlots(stored: seq<R.Addr>, top: int): seq<R.Addr>
    requires -1 <= top
  {
    if top < |stored| then stored[..top + 1] else stored
  }

  /** The slots at or below the stack top that still hold what they held before the failing call. */
  function OldSlots(stored: seq<R.Addr>, slots: seq<R.Addr>, top: int): seq<R.Addr>
    requires -1 <= top < |slots| && |stored| <= |slots|
  {
    if top < |stored| then [] else slots[|stored|..top + 1]
  }

  /** The slot of the first buffer of page i is at or below the stack top. */
  predicate LowIndex(k: FramesPerPage, i: nat, top: int) {
    i >= 8 && (i - 8) * k <= top
  }

  /** Page p was got, and its first buffer went to a slot at or below the old stack top. */
  predicate StoredLow(got: seq<R.Addr>, k: FramesPerPage, top: int, p: R.Addr) {
    exists i :: 0 <= i < |got| && got[i] == p && LowIndex(k, i, top)
  }

  /** How often the buffer at index j is found in the slots written. */
  lemma FoundInSlots(bufs: seq<R.Addr>, k: FramesPerPage, top: int, j: nat, p: R.Addr)
    requires -1 <= top && j < |bufs| && bufs[j] == p && multiset(bufs)[p] == 1
    ensures multiset(LowSlots(BehindRing(bufs, k), top))[p] == OneIfWithin(RxRingSize(k), j, top)
  {
    var r := RxRingSize(k);
    if |bufs| > r {
      var low := LowSlots(bufs[r..], top);
      var n := |low|;
      assert low == bufs[r..r + n];
      OnceInSlice(bufs, j, r, r + n);
    }
  }

  function OneIfWithin(r: nat, j: nat, top: int): nat {
    if r <= j <= r + top then 1 else 0
  }

  lemma LowIndexIsWithin(k: FramesPerPage, i: nat, j: nat, top: int)
    requires j == i * k && top >= -1
    ensures OneIfWithin(RxRingSize(k), j, top) == R.OneIf(LowIndex(k, i, top))
  {
    BehindRingIndex(k, i);
  }

  lemma StoredLowAt(got: seq<R.Addr>, k: FramesPerPage, top: int, i: nat)
    requires i < |got| && multiset(got)[got[i]] == 1
    ensures StoredLow(got, k, top, got[i]) <==> LowIndex(k, i, top)
  {
    OnlyIndex(got, i);
  }

  lemma OnlyIndex(s: seq<R.Addr>, i: nat)
    requires i < |s| && multiset(s)[s[i]] == 1
    ensures forall j :: 0 <= j < |s| && s[j] == s[i] ==> j == i
  {
    forall j | 0 <= j < |s| && s[j] == s[i]
      ensures j == i
    {
      OnceInSlice(s, i, j, j + 1);
    }
  }

  lemma NotInSlots(bufs: seq<R.Addr>, k: FramesPerPage, top: int, p: R.Addr)
    requires -1 <= top && multiset(bufs)[p] == 0
    ensures multiset(LowSlots(BehindRing(bufs, k), top))[p] == 0
  {
    assert p !in bufs;
  }

  /** Page i of those got, with its first buffer at index j, in the slots written. */
  lemma PageAtInSlots(got: seq<R.Addr>, bufs: seq<R.Addr>, k: FramesPerPage, top: int, i: nat, j: nat)
    requires -1 <= top && i < |got| && j < |bufs| && bufs[j] == got[i] && j == i * k
    requires multiset(bufs)[got[i]] == multiset(got)[got[i]] == 1
    ensures multiset(LowSlots(BehindRing(bufs, k), top))[got[i]] == R.OneIf(StoredLow(got, k, top, got[i]))
  {
    FoundInSlots(bufs, k, top, j, got[i]);
    LowIndexIsWithin(k, i, j, top);
    StoredLowAt(got, k, top, i);
  }

  lemma StartIndex(got: seq<R.Addr>, k: FramesPerPage, p: R.Addr) returns (i: nat, j: nat)
    requires p in got
    ensures i < |got| && got[i] == p && j == i * k && j < |Buffers(got, k)| && Buffers(got, k)[j] == p
  {
    i :| i < |got| && got[i] == p;
    PageStartsAt(got, k, i);
    j := i * k;
  }

  /** Page p, got or not, in the slots written. */
  lemma PageInSlots(got: seq<R.Addr>, k: FramesPerPage, top: int, p: R.Addr)
    requires multiset(Buffers(got, k))[p] == multiset(got)[p] <= 1 && -1 <= top
    ensures multiset(LowSlots(BehindRing(Buffers(got, k), k), top))[p] == R.OneIf(StoredLow(got, k, top, p))
  {
    if p in got {
      var i, j := StartIndex(got, k, p);
      PageAtInSlots(got, Buffers(got, k), k, top, i, j);
    } else {
      NotInSlots(Buffers(got, k), k, top, p);
    }
  }

  /** What is freed on a failure is what the old descriptors name, and the stack from the old top down: the
      slots written by now and the old ones above them. */
  lemma FreedOnFailureCount(got: seq<R.Addr>, k: FramesPerPage, ring: seq<R.Descriptor>, slots: seq<R.Addr>, top: int,
                            stored: seq<R.Addr>, p: R.Addr)
    requires -1 <= top < |slots| && |stored| <= |slots| && stored == BehindRing(Buffers(got, k), k)
    requires p > 0 && PageOffset(p, k) == 0
    ensures multiset(FreedOnFailure(got, k, ring, slots, top))[p]
         == multiset(R.Buffers(ring))[p] + multiset(LowSlots(stored, top))[p] + multiset(OldSlots(stored, slots, top))[p]
  {
    var stack := WrittenOver(slots, stored)[..top + 1];
    SlotsSplit(slots, stored, top);
    CountConcat(LowSlots(stored, top), OldSlots(stored, slots, top), p);
    CountNonZero(R.Buffers(ring), p);
    CountPageStarts(NonZero(R.Buffers(ring)), k, p);
    CountPageStarts(Reversed(stack), k, p);
    ReversedIsPermutation(stack);
    CountConcat(PageStarts(NonZero(R.Buffers(ring)), k), PageStarts(Reversed(stack), k), p);
  }

  lemma SlotsSplit(slots: seq<R.Addr>, stored: seq<R.Addr>, top: int)
    requires -1 <= top < |slots| && |stored| <= |slots|
    ensures WrittenOver(slots, stored)[..top + 1] == LowSlots(stored, top) + OldSlots(stored, slots, top)
  {
  }

  /** Main result, for any state of the driver before and any page, whether got or not: when page allocation
      fails, a page is freed as often as the old descriptors and the old slots below the old top name it,
      and once more exactly if it was got and stored at or below that top. */
  lemma FreedOnFailureExactly(pages: seq<R.Addr>, granted: nat, k: FramesPerPage, ring: seq<R.Descriptor>,
                              slots: seq<R.Addr>, top: int, p: R.Addr)
    requires Pages(pages, k) && granted < |pages| && -1 <= top < |slots| == StackSlots(k)
    requires p > 0 && PageOffset(p, k) == 0
    ensures var got := pages[..granted];
            var stored := BehindRing(Buffers(got, k), k);
            && |stored| <= |slots|
            && multiset(FreedOnFailure(got, k, ring, slots, top))[p]
               == multiset(R.Buffers(ring))[p] + multiset(OldSlots(stored, slots, top))[p]
                  + R.OneIf(StoredLow(got, k, top, p))
  {
    var got := pages[..granted];
    GotFits(pages, granted, k);
    FreedOnFailureCount(got, k, ring, slots, top, BehindRing(Buffers(got, k), k), p);
    GotIsABuffer(pages, granted, k, p);
    PageInSlots(got, k, top, p);
  }

  lemma GotIsABuffer(pages: seq<R.Addr>, granted: nat, k: FramesPerPage, p: R.Addr)
    requires Pages(pages, k) && granted < |pages| && p > 0 && PageOffset(p, k) == 0
    ensures multiset(Buffers(pages[..granted], k))[p] == multiset(pages[..granted])[p] <= 1
  {
    BufferCount(pages[..granted], k, p);
    assert BufferOf(PageOf(p, k), p, k);
    DistinctIsSet(pages[..granted], p);
  }

  /** So with the stack top at -1, where an earlier failure or an earlier life of the driver leaves it, exactly
      the pages named by old descriptors are freed, and all those got now are lost that these do not name. */
  lemma FailureWithEmptyStack(pages: seq<R.Addr>, granted: nat, k: FramesPerPage, ring: seq<R.Descriptor>,
                              slots: seq<R.Addr>, p: R.Addr)
    requires Pages(pages, k) && granted < |pages| && |slots| == StackSlots(k) && p > 0 && PageOffset(p, k) == 0
    ensures |BehindRing(Buffers(pages[..granted], k), k)| <= |slots|
    ensures multiset(FreedOnFailure(pages[..granted], k, ring, slots, -1))[p] == multiset(R.Buffers(ring))[p]
  {
    FreedOnFailureExactly(pages, granted, k, ring, slots, -1, p);
    var got := pages[..granted];
    if i :| 0 <= i < |got| && got[i] == p && LowIndex(k, i, -1) {
      BehindRingIndex(k, i);
      assert false;
    }
  }

  lemma {:induction false} NonZeroOfNulls(bufs: seq<R.Addr>)
    requires forall i :: 0 <= i < |bufs| ==> bufs[i] == 0
    ensures NonZero(bufs) == []
    decreases |bufs|
  {
    if bufs != [] {
      NonZeroOfNulls(bufs[..|bufs| - 1]);
    }
  }

  lemma OnePageStart(x: R.Addr, k: FramesPerPage)
    requires PageOffset(x, k) == 0
    ensures PageStarts(Reversed([x]), k) == [x]
  {
    assert Reversed([x]) == [x] + Reversed([x][..0]);
    assert PageStarts([x], k) == PageStarts([x][..0], k) + [x];
  }

  /** The buffer in the lowest slot: that of the ninth page, or what was there. */
  lemma LowestSlot(pages: seq<R.Addr>, granted: nat, k: FramesPerPage, slots: seq<R.Addr>)
    requires Pages(pages, k) && granted < |pages| && |slots| == StackSlots(k)
    ensures |BehindRing(Buffers(pages[..granted], k), k)| <= |slots|
    ensures WrittenOver(slots, BehindRing(Buffers(pages[..granted], k), k))[0]
         == if granted <= 8 then slots[0] else pages[8]
  {
    var got := pages[..granted];
    GotFits(pages, granted, k);
    BuffersLength(got, k);
    BehindRingIndex(k, granted);
    if granted > 8 {
      PageStartsAt(got, k, 8);
    } else if granted < 8 {
      assert (8 - granted) * k >= 0;
    }
  }

  /** On the first start the stack top is 0 and nothing is in ring or slots.  Then a failure frees the
      ninth page if it was got, and otherwise the null address; all other pages are lost.  The count ends one
      below the number of pages got: it reads 0, as if all was well, exactly when one page was got and lost,
      and agrees with the pages lost exactly when nine or more were got. */
  lemma FirstStartFails(pages: seq<R.Addr>, granted: nat, k: FramesPerPage, ring: seq<R.Descriptor>,
                        slots: seq<R.Addr>)
    requires Pages(pages, k) && granted < |pages| && |slots| == StackSlots(k) && slots[0] == 0
    requires forall i :: 0 <= i < |ring| ==> ring[i].buf == 0
    ensures |BehindRing(Buffers(pages[..granted], k), k)| <= |slots|
    ensures var freed := FreedOnFailure(pages[..granted], k, ring, slots, 0);
            var lost := set p | p in pages[..granted] && p !in freed;
            && freed == [if granted <= 8 then 0 else pages[8]]
            && |lost| == (if granted <= 8 then granted else granted - 1)
            && (granted - |freed| == 0 <==> granted == 1)
            && (granted - |freed| == |lost| <==> granted > 8)
  {
    var x := if granted <= 8 then 0 else pages[8];
    LowestSlot(pages, granted, k, slots);
    NonZeroOfNulls(R.Buffers(ring));
    OnePageStart(x, k);
    var stack := WrittenOver(slots, BehindRing(Buffers(pages[..granted], k), k));
    assert stack[..1] == [x];
    var freed := FreedOnFailure(pages[..granted], k, ring, slots, 0);
    assert freed == [] + [x];
    CountOthers(pages[..granted], x);
    assert (set p | p in pages[..granted] && p !in freed) == Others(pages[..granted], x);
  }

  function Others(pages: seq<R.Addr>, x: R.Addr): set<R.Addr> {
    set p | p in pages && p != x
  }

  lemma OthersSnoc(front: seq<R.Addr>, last: R.Addr, x: R.Addr)
    requires last !in front
    ensures |Others(front + [last], x)| == |Others(front, x)| + if last == x then 0 else 1
  {
    var others := Others(front, x);
    assert Others(front + [last], x) == if last == x then others else others + {last};
  }

  /** How many pages are not x. */
  lemma {:induction false} CountOthers(pages: seq<R.Addr>, x: R.Addr)
    requires forall i, j :: 0 <= i < j < |pages| ==> pages[i] != pages[j]
    ensures |Others(pages, x)| == if x in pages then |pages| - 1 else |pages|
    decreases |pages|
  {
    if pages != [] {
      var front, last := pages[..|pages| - 1], pages[|pages| - 1];
      CountOthers(front, x);
      OthersSnoc(front, last, x);
      assert pages == front + [last];
    }
  }
}
