/** The three engines of Page_replacement_sim_upd2.py, whose lines 7-70 are
    the same in update_page_replacement_sim.py. They keep `frame_list` as a
    queue (FIFO pops the front and appends), keep a recency list
    `page_order` beside it (LRU), or look ahead with indices relative to the
    next step (Optimal); they return the per-step snapshots and the hit and
    miss counts, and log no faults.

    As in `OsSim`, every engine is a specification (`Step` and `After`
    functions) and a method whose loop mirrors the Python loop. */
module QueueSim {
  import opened PageLists

  // ------------------------------------------------------------------ FIFO

  /** `fifo_page_replacement`'s variables after some steps. */
  datatype FifoState = FifoState(
    frameList: seq<int>, history: seq<seq<int>>, hits: nat, misses: nat)

  /** What the FIFO step relies on: at most `frames` residents. */
  predicate FifoReady(s: FifoState, frames: nat)
  {
    frames >= 1 && |s.frameList| <= frames
  }

  /** One reference: a hit changes nothing but the counter; a miss appends
      the page, first dropping the front of a full queue. */
  function FifoStep(s: FifoState, page: int, frames: nat): (t: FifoState)
    requires FifoReady(s, frames)
    ensures FifoReady(t, frames)
    ensures page in t.frameList
    ensures |t.history| == |s.history| + 1 && t.hits + t.misses == s.hits + s.misses + 1
  {
    if page in s.frameList then
      s.(history := s.history + [s.frameList], hits := s.hits + 1)
    else if |s.frameList| < frames then
      var fl := s.frameList + [page];
      s.(frameList := fl, history := s.history + [fl], misses := s.misses + 1)
    else
      var fl := s.frameList[1..] + [page];
      s.(frameList := fl, history := s.history + [fl], misses := s.misses + 1)
  }

  /** The FIFO state after the first `n` references of `pages`. */
  function FifoAfter(pages: seq<int>, frames: nat, n: nat): (s: FifoState)
    requires frames >= 1 && n <= |pages|
    ensures FifoReady(s, frames)
    ensures |s.history| == n && s.hits + s.misses == n
    decreases n
  {
    if n == 0 then FifoState([], [], 0, 0)
    else FifoStep(FifoAfter(pages, frames, n - 1), pages[n - 1], frames)
  }

  /** `fifo_page_replacement(pages, frames)`. */
  method FifoPageReplacement(pages: seq<int>, frames: nat)
    returns (history: seq<seq<int>>, hits: nat, misses: nat)
    requires frames >= 1
    ensures var r := FifoAfter(pages, frames, |pages|);
      history == r.history && hits == r.hits && misses == r.misses
    ensures |history| == |pages| && hits + misses == |pages|
  {
    var frameList: seq<int> := [];
    history, hits, misses := [], 0, 0;
    var i := 0;
    while i < |pages|
      invariant i <= |pages|
      invariant FifoAfter(pages, frames, i) == FifoState(frameList, history, hits, misses)
    {
      var page := pages[i];
      if page in frameList {
        hits := hits + 1;
      } else {
        misses := misses + 1;
        if |frameList| < frames {
          frameList := frameList + [page];
        } else {
          frameList := frameList[1..];
          frameList := frameList + [page];
        }
      }
      history := history + [frameList];
      i := i + 1;
    }
  }

  /** The FIFO queue holds `min(frames, misses)` pages. */
  lemma {:induction false} FifoCounts(pages: seq<int>, frames: nat, n: nat)
    requires frames >= 1 && n <= |pages|
    ensures |FifoAfter(pages, frames, n).frameList| == Min(frames, FifoAfter(pages, frames, n).misses)
  {
    if n > 0 {
      FifoCounts(pages, frames, n - 1);
    }
  }

  /** The effect of FIFO step `k`. A hit leaves the queue alone; a cold miss
      appends; an eviction removes the front, which arrived before every
      other resident and is then no longer resident, keeps the survivors in
      their order and appends the new page, so the length stays `frames`. */
  lemma FifoStepEffect(pages: seq<int>, frames: nat, k: nat)
    requires frames >= 1 && k < |pages|
    ensures var s, t := FifoAfter(pages, frames, k), FifoAfter(pages, frames, k + 1);
      pages[k] in s.frameList ==> t.frameList == s.frameList
    ensures var s, t := FifoAfter(pages, frames, k), FifoAfter(pages, frames, k + 1);
      pages[k] !in s.frameList && |s.frameList| < frames ==> t.frameList == s.frameList + [pages[k]]
    ensures var s, t := FifoAfter(pages, frames, k), FifoAfter(pages, frames, k + 1);
      pages[k] !in s.frameList && |s.frameList| == frames ==>
        |t.frameList| == frames && s.frameList[0] !in t.frameList &&
        t.frameList[..frames - 1] == s.frameList[1..] && t.frameList[frames - 1] == pages[k] &&
        forall q :: q in s.frameList && q != s.frameList[0] ==>
          Arrival(pages, frames, k, s.frameList[0]) < Arrival(pages, frames, k, q)
  {
    var s := FifoAfter(pages, frames, k);
    if pages[k] !in s.frameList && |s.frameList| == frames {
      var t := FifoAfter(pages, frames, k + 1);
      FifoDistinct(pages, frames, k);
      FifoArrivalOrder(pages, frames, k);
      assert t.frameList == s.frameList[1..] + [pages[k]];
      assert t.frameList[..frames - 1] == s.frameList[1..];
    }
  }

  /** No page is ever queued twice: a miss only brings in a page that is not
      resident. */
  lemma {:induction false} FifoDistinct(pages: seq<int>, frames: nat, n: nat)
    requires frames >= 1 && n <= |pages|
    ensures NoDups(FifoAfter(pages, frames, n).frameList)
  {
    if n > 0 {
      var r := FifoAfter(pages, frames, n - 1);
      FifoDistinct(pages, frames, n - 1);
      if pages[n - 1] !in r.frameList && |r.frameList| == frames {
        var fl := r.frameList[1..] + [pages[n - 1]];
        assert forall j :: 0 <= j < |fl| - 1 ==> fl[j] == r.frameList[j + 1];
      }
    }
  }

  /** The step at which `p` last came into the frames within the first `n`
      references: the last step that referenced `p` while it was not
      resident (a miss on `p`), or -1 if there is none. */
  function Arrival(pages: seq<int>, frames: nat, n: nat, p: int): (a: int)
    requires frames >= 1 && n <= |pages|
    ensures -1 <= a < n
    ensures a >= 0 ==> pages[a] == p && p !in FifoAfter(pages, frames, a).frameList
    decreases n
  {
    if n == 0 then -1
    else if pages[n - 1] == p && p !in FifoAfter(pages, frames, n - 1).frameList then n - 1
    else Arrival(pages, frames, n - 1, p)
  }

  /** After `n` references every queued page has arrived, and the queue runs
      from the earliest arrival to the latest. */
  predicate ArrivalOrdered(pages: seq<int>, frames: nat, n: nat)
    requires frames >= 1 && n <= |pages|
  {
    var fl := FifoAfter(pages, frames, n).frameList;
    (forall a :: 0 <= a < |fl| ==> Arrival(pages, frames, n, fl[a]) >= 0) &&
    (forall a, b :: 0 <= a < b < |fl| ==> Arrival(pages, frames, n, fl[a]) < Arrival(pages, frames, n, fl[b]))
  }

  /** A step that does not bring `q` in leaves its arrival where it was. */
  lemma ArrivalKept(pages: seq<int>, frames: nat, n: nat, q: int)
    requires frames >= 1 && n < |pages|
    requires q != pages[n] || pages[n] in FifoAfter(pages, frames, n).frameList
    ensures Arrival(pages, frames, n + 1, q) == Arrival(pages, frames, n, q)
  {
  }

  /** Pages kept in order, followed by a page arriving now, are in arrival
      order. */
  lemma ArrivalAppend(pages: seq<int>, frames: nat, n: nat, kept: seq<int>)
    requires frames >= 1 && n < |pages|
    requires pages[n] !in FifoAfter(pages, frames, n).frameList
    requires forall a :: 0 <= a < |kept| ==> kept[a] in FifoAfter(pages, frames, n).frameList
    requires forall a :: 0 <= a < |kept| ==> Arrival(pages, frames, n, kept[a]) >= 0
    requires forall a, b :: 0 <= a < b < |kept| ==>
      Arrival(pages, frames, n, kept[a]) < Arrival(pages, frames, n, kept[b])
    ensures var fl := kept + [pages[n]];
      (forall a :: 0 <= a < |fl| ==> Arrival(pages, frames, n + 1, fl[a]) >= 0) &&
      (forall a, b :: 0 <= a < b < |fl| ==> Arrival(pages, frames, n + 1, fl[a]) < Arrival(pages, frames, n + 1, fl[b]))
  {
    var fl := kept + [pages[n]];
    forall a | 0 <= a < |kept|
      ensures fl[a] == kept[a] && Arrival(pages, frames, n + 1, fl[a]) == Arrival(pages, frames, n, kept[a])
    {
      ArrivalKept(pages, frames, n, kept[a]);
    }
    assert Arrival(pages, frames, n + 1, fl[|kept|]) == n;
    forall a, b | 0 <= a < b < |fl|
      ensures Arrival(pages, frames, n + 1, fl[a]) < Arrival(pages, frames, n + 1, fl[b])
    {
      if b < |kept| {
        assert Arrival(pages, frames, n, kept[a]) < Arrival(pages, frames, n, kept[b]);
      }
    }
  }

  /** One FIFO step keeps the queue in arrival order: a hit moves nobody's
      arrival, and a miss appends the page that arrives now. */
  lemma FifoArrivalStep(pages: seq<int>, frames: nat, n: nat)
    requires frames >= 1 && n < |pages|
    requires ArrivalOrdered(pages, frames, n)
    ensures ArrivalOrdered(pages, frames, n + 1)
  {
    var s, page := FifoAfter(pages, frames, n), pages[n];
    if page in s.frameList {
      forall a | 0 <= a < |s.frameList| {
        ArrivalKept(pages, frames, n, s.frameList[a]);
      }
    } else if |s.frameList| < frames {
      ArrivalAppend(pages, frames, n, s.frameList);
    } else {
      var kept := s.frameList[1..];
      assert forall a :: 0 <= a < |kept| ==> kept[a] == s.frameList[a + 1];
      ArrivalAppend(pages, frames, n, kept);
    }
  }

  /** The FIFO queue is always in arrival order, front first. */
  lemma {:induction false} FifoArrivalOrder(pages: seq<int>, frames: nat, n: nat)
    requires frames >= 1 && n <= |pages|
    ensures ArrivalOrdered(pages, frames, n)
  {
    if n > 0 {
      FifoArrivalOrder(pages, frames, n - 1);
      FifoArrivalStep(pages, frames, n - 1);
    }
  }

  /** FIFO snapshot `k` is the queue right after step `k`. */
  lemma {:induction false} FifoHistory(pages: seq<int>, frames: nat, n: nat, k: nat)
    requires frames >= 1 && k < n <= |pages|
    ensures FifoAfter(pages, frames, n).history[k] == FifoAfter(pages, frames, k + 1).frameList
  {
    if k < n - 1 {
      FifoHistory(pages, frames, n - 1, k);
    }
  }

  /** Every FIFO snapshot is duplicate-free, holds the page just referenced
      and has `min(frames, misses so far)` entries. */
  lemma FifoSnapshot(pages: seq<int>, frames: nat, k: nat)
    requires frames >= 1 && k < |pages|
    ensures var h := FifoAfter(pages, frames, |pages|).history[k];
      NoDups(h) && pages[k] in h && |h| <= frames &&
      |h| == Min(frames, FifoAfter(pages, frames, k + 1).misses)
  {
    FifoHistory(pages, frames, |pages|, k);
    FifoCounts(pages, frames, k + 1);
    FifoDistinct(pages, frames, k + 1);
  }

  // ------------------------------------------------------------------- LRU

  /** `lru_page_replacement`'s variables after some steps; `pageOrder` lists
      the residents from least to most recently used. */
  datatype LruState = LruState(
    frameList: seq<int>, pageOrder: seq<int>,
    history: seq<seq<int>>, hits: nat, misses: nat)

  /** `order` lists the pages of `frameList`: it is duplicate-free, of the
      same length, and every page of it is resident (so every resident is in
      it, see `InOrder`). */
  predicate SamePages(order: seq<int>, frameList: seq<int>)
  {
    NoDups(order) && |order| == |frameList| && forall q :: q in order ==> q in frameList
  }

  /** Every resident page appears in an arrangement of the residents. */
  lemma InOrder(order: seq<int>, frameList: seq<int>, x: int)
    requires SamePages(order, frameList) && x in frameList
    ensures x in order
  {
    SubsetLength(order, frameList, x);
  }

  /** Evicting the front of `order` from its slot in `frameList` and putting
      a new page both there and at the back of `order` keeps the two lists
      arrangements of each other. */
  lemma EvictFront(order: seq<int>, frameList: seq<int>, page: int)
    requires SamePages(order, frameList) && |order| > 0 && page !in frameList
    ensures SamePages(order[1..] + [page], frameList[IndexOf(frameList, order[0]) := page])
  {
    var v := IndexOf(frameList, order[0]);
    var order', frameList' := order[1..] + [page], frameList[v := page];
    assert forall j :: 0 <= j < |order'| - 1 ==> order'[j] == order[j + 1];
    assert frameList'[v] == page;
    forall q | q in order'
      ensures q in frameList'
    {
      if q != page {
        var j :| 0 <= j < |order'| && order'[j] == q;
        assert order'[|order| - 1] == page;
        assert order[j + 1] == q && q in order;
        var m :| 0 <= m < |frameList| && frameList[m] == q;
        assert m != v && frameList'[m] == q;
      }
    }
  }

  /** What the LRU step relies on: at most `frames` distinct residents, and
      `pageOrder` an arrangement of them. */
  predicate LruReady(s: LruState, frames: nat)
  {
    frames >= 1 && |s.frameList| <= frames && SamePages(s.pageOrder, s.frameList)
  }

  /** One reference: a hit moves the page to the back of `pageOrder`; a miss
      fills the next free slot, or pops the front of `pageOrder` and
      overwrites that page's slot; the page then joins the back of
      `pageOrder`. */
  function LruStep(s: LruState, page: int, frames: nat): (t: LruState)
    requires LruReady(s, frames)
    ensures LruReady(t, frames)
    ensures page in t.frameList
    ensures |t.history| == |s.history| + 1 && t.hits + t.misses == s.hits + s.misses + 1
  {
    if page in s.frameList then
      InOrder(s.pageOrder, s.frameList, page);
      MoveToBack(s.pageOrder, page);
      s.(pageOrder := RemoveFirst(s.pageOrder, page) + [page],
         history := s.history + [s.frameList], hits := s.hits + 1)
    else if |s.frameList| < frames then
      var fl := s.frameList + [page];
      s.(frameList := fl, pageOrder := s.pageOrder + [page],
         history := s.history + [fl], misses := s.misses + 1)
    else
      var lru := s.pageOrder[0];
      var fl := s.frameList[IndexOf(s.frameList, lru) := page];
      assert fl[IndexOf(s.frameList, lru)] == page;
      var order := s.pageOrder[1..] + [page];
      EvictFront(s.pageOrder, s.frameList, page);
      s.(frameList := fl, pageOrder := order,
         history := s.history + [fl], misses := s.misses + 1)
  }

  /** The LRU state after the first `n` references of `pages`. */
  function LruAfter(pages: seq<int>, frames: nat, n: nat): (s: LruState)
    requires frames >= 1 && n <= |pages|
    ensures LruReady(s, frames)
    ensures |s.history| == n && s.hits + s.misses == n
    decreases n
  {
    if n == 0 then LruState([], [], [], 0, 0)
    else LruStep(LruAfter(pages, frames, n - 1), pages[n - 1], frames)
  }

  /** `lru_page_replacement(pages, frames)`. */
  method LruPageReplacement(pages: seq<int>, frames: nat)
    returns (history: seq<seq<int>>, hits: nat, misses: nat)
    requires frames >= 1
    ensures var r := LruAfter(pages, frames, |pages|);
      history == r.history && hits == r.hits && misses == r.misses
    ensures |history| == |pages| && hits + misses == |pages|
  {
    var frameList: seq<int> := [];
    history, hits, misses := [], 0, 0;
    var pageOrder: seq<int> := [];
    var i := 0;
    while i < |pages|
      invariant i <= |pages|
      invariant LruAfter(pages, frames, i) == LruState(frameList, pageOrder, history, hits, misses)
    {
      ghost var next := LruAfter(pages, frames, i + 1);
      var page := pages[i];
      if page in frameList {
        hits := hits + 1;
        InOrder(pageOrder, frameList, page);
        pageOrder := RemoveFirst(pageOrder, page);
      } else {
        misses := misses + 1;
        if |frameList| < frames {
          frameList := frameList + [page];
        } else {
          var lruPage := pageOrder[0];
          assert lruPage in frameList;
          pageOrder := pageOrder[1..];
          frameList := frameList[IndexOf(frameList, lruPage) := page];
        }
      }
      pageOrder := pageOrder + [page];
      history := history + [frameList];
      i := i + 1;
      assert next.frameList == frameList && next.pageOrder == pageOrder;
    }
  }

  /** The LRU frame list holds `min(frames, misses)` pages. */
  lemma {:induction false} LruCounts(pages: seq<int>, frames: nat, n: nat)
    requires frames >= 1 && n <= |pages|
    ensures |LruAfter(pages, frames, n).frameList| == Min(frames, LruAfter(pages, frames, n).misses)
  {
    if n > 0 {
      LruCounts(pages, frames, n - 1);
    }
  }

  /** `order` runs from least to most recently referenced in `refs`, and
      every page in it has been referenced. */
  ghost predicate RecencyOrdered(order: seq<int>, refs: seq<int>)
  {
    (forall a :: 0 <= a < |order| ==> LastRef(refs, order[a]) >= 0) &&
    (forall a, b :: 0 <= a < b < |order| ==> LastRef(refs, order[a]) < LastRef(refs, order[b]))
  }

  /** Referencing `x` after the pages of a recency-ordered list that lacks
      `x` and appending `x` keeps the list recency-ordered. */
  lemma RecencyAppend(order: seq<int>, refs: seq<int>, x: int)
    requires RecencyOrdered(order, refs) && x !in order
    ensures RecencyOrdered(order + [x], refs + [x])
  {
    var order', refs' := order + [x], refs + [x];
    forall a | 0 <= a < |order'|
      ensures LastRef(refs', order'[a]) == if a == |order| then |refs| else LastRef(refs, order[a])
    {
      LastRefSnoc(refs, x, order'[a]);
    }
  }

  /** Dropping the element at position `k` keeps a list recency-ordered. */
  lemma RecencyDrop(order: seq<int>, refs: seq<int>, k: nat)
    requires RecencyOrdered(order, refs) && k < |order|
    ensures RecencyOrdered(order[..k] + order[k + 1..], refs)
  {
    var r := order[..k] + order[k + 1..];
    forall a | 0 <= a < |r|
      ensures r[a] == order[if a < k then a else a + 1]
    {
    }
  }

  /** A hit on a recency-ordered list: removing the page and appending it
      again keeps the list recency-ordered. */
  lemma RecencyHit(order: seq<int>, refs: seq<int>, page: int)
    requires RecencyOrdered(order, refs) && NoDups(order) && page in order
    ensures RecencyOrdered(RemoveFirst(order, page) + [page], refs + [page])
  {
    var k := IndexOf(order, page);
    RecencyDrop(order, refs, k);
    assert page !in RemoveFirst(order, page) by {
      assert forall j :: 0 <= j < |order| && j != k ==> order[j] != page;
    }
    RecencyAppend(RemoveFirst(order, page), refs, page);
  }

  /** An eviction on a recency-ordered list: dropping the front and
      appending a page not in the list keeps it recency-ordered. */
  lemma RecencyEvict(order: seq<int>, refs: seq<int>, page: int)
    requires RecencyOrdered(order, refs) && |order| > 0 && page !in order
    ensures RecencyOrdered(order[1..] + [page], refs + [page])
  {
    RecencyDrop(order, refs, 0);
    assert order[..0] + order[1..] == order[1..];
    RecencyAppend(order[1..], refs, page);
  }

  /** No page ever occupies two LRU slots. */
  lemma {:induction false} LruDistinct(pages: seq<int>, frames: nat, n: nat)
    requires frames >= 1 && n <= |pages|
    ensures NoDups(LruAfter(pages, frames, n).frameList)
  {
    if n > 0 {
      var r := LruAfter(pages, frames, n - 1);
      LruDistinct(pages, frames, n - 1);
      if pages[n - 1] !in r.frameList && |r.frameList| == frames {
        ReplaceSlot(r.frameList, IndexOf(r.frameList, r.pageOrder[0]), pages[n - 1]);
      }
    }
  }

  /** LRU step `n - 1` keeps `pageOrder` recency-ordered, now over the
      references up to and including that step, and leaves the page just
      referenced at its back. */
  lemma LruRecencyStep(pages: seq<int>, frames: nat, n: nat)
    requires frames >= 1 && 0 < n <= |pages|
    requires RecencyOrdered(LruAfter(pages, frames, n - 1).pageOrder, pages[..n - 1])
    ensures RecencyOrdered(LruAfter(pages, frames, n).pageOrder, pages[..n])
    ensures |LruAfter(pages, frames, n).pageOrder| > 0 &&
      LruAfter(pages, frames, n).pageOrder[|LruAfter(pages, frames, n).pageOrder| - 1] == pages[n - 1]
  {
    var s, refs, page := LruAfter(pages, frames, n - 1), pages[..n - 1], pages[n - 1];
    assert pages[..n] == refs + [page];
    if page in s.frameList {
      InOrder(s.pageOrder, s.frameList, page);
      RecencyHit(s.pageOrder, refs, page);
    } else if |s.frameList| < frames {
      RecencyAppend(s.pageOrder, refs, page);
    } else {
      RecencyEvict(s.pageOrder, refs, page);
    }
  }

  /** `pageOrder` runs from least to most recently used, every page in it
      has been referenced, and it ends with the page just referenced. */
  lemma {:induction false} LruRecency(pages: seq<int>, frames: nat, n: nat)
    requires frames >= 1 && n <= |pages|
    ensures RecencyOrdered(LruAfter(pages, frames, n).pageOrder, pages[..n])
    ensures n > 0 ==>
      (|LruAfter(pages, frames, n).pageOrder| > 0 &&
       LruAfter(pages, frames, n).pageOrder[|LruAfter(pages, frames, n).pageOrder| - 1] == pages[n - 1])
  {
    if n > 0 {
      LruRecency(pages, frames, n - 1);
      LruRecencyStep(pages, frames, n);
    }
  }

  /** In a recency-ordered arrangement of the residents, the front page was
      referenced less recently than every other resident. */
  lemma FrontIsLeastRecent(order: seq<int>, frameList: seq<int>, refs: seq<int>)
    requires SamePages(order, frameList) && NoDups(frameList) && RecencyOrdered(order, refs)
    requires |order| > 0
    ensures forall j :: 0 <= j < |frameList| && j != IndexOf(frameList, order[0]) ==>
      LastRef(refs, order[0]) < LastRef(refs, frameList[j])
  {
    var v := IndexOf(frameList, order[0]);
    forall j | 0 <= j < |frameList| && j != v
      ensures LastRef(refs, order[0]) < LastRef(refs, frameList[j])
    {
      InOrder(order, frameList, frameList[j]);
      var b :| 0 <= b < |order| && order[b] == frameList[j];
      assert b != 0;
    }
  }

  /** The effect of LRU step `k`. A hit leaves the frame list alone and moves
      the page to the back of `pageOrder`. A cold miss appends the page to
      both lists. An eviction pops the front of `pageOrder`, overwrites that
      page's slot and no other, and the page it evicts was referenced less
      recently than every other resident. */
  lemma LruStepEffect(pages: seq<int>, frames: nat, k: nat)
    requires frames >= 1 && k < |pages|
    ensures var s, t := LruAfter(pages, frames, k), LruAfter(pages, frames, k + 1);
      pages[k] in s.frameList ==>
        t.frameList == s.frameList && t.pageOrder == RemoveFirst(s.pageOrder, pages[k]) + [pages[k]]
    ensures var s, t := LruAfter(pages, frames, k), LruAfter(pages, frames, k + 1);
      pages[k] !in s.frameList && |s.frameList| < frames ==>
        t.frameList == s.frameList + [pages[k]] && t.pageOrder == s.pageOrder + [pages[k]]
    ensures var s, t := LruAfter(pages, frames, k), LruAfter(pages, frames, k + 1);
      pages[k] !in s.frameList && |s.frameList| == frames ==>
        s.pageOrder[0] in s.frameList && t.pageOrder == s.pageOrder[1..] + [pages[k]] &&
        var v := IndexOf(s.frameList, s.pageOrder[0]);
        t.frameList == s.frameList[v := pages[k]] &&
        forall j :: 0 <= j < frames && j != v ==>
          LastRef(pages[..k], s.frameList[v]) < LastRef(pages[..k], s.frameList[j])
  {
    var s := LruAfter(pages, frames, k);
    if pages[k] !in s.frameList && |s.frameList| == frames {
      LruRecency(pages, frames, k);
      LruDistinct(pages, frames, k);
      FrontIsLeastRecent(s.pageOrder, s.frameList, pages[..k]);
    }
  }

  /** LRU snapshot `k` is the frame list right after step `k`. */
  lemma {:induction false} LruHistory(pages: seq<int>, frames: nat, n: nat, k: nat)
    requires frames >= 1 && k < n <= |pages|
    ensures LruAfter(pages, frames, n).history[k] == LruAfter(pages, frames, k + 1).frameList
  {
    var prev, cur := LruAfter(pages, frames, n - 1), LruAfter(pages, frames, n);
    assert cur == LruStep(prev, pages[n - 1], frames);
    LruStepHistory(prev, pages[n - 1], frames);
    if k < n - 1 {
      LruHistory(pages, frames, n - 1, k);
      assert cur.history[k] == prev.history[k];
    }
  }

  /** One LRU step appends its new frame list to the snapshots. */
  lemma LruStepHistory(s: LruState, page: int, frames: nat)
    requires LruReady(s, frames)
    ensures LruStep(s, page, frames).history == s.history + [LruStep(s, page, frames).frameList]
  {
  }

  /** Every LRU snapshot is duplicate-free, holds the page just referenced
      and has `min(frames, misses so far)` entries. */
  lemma LruSnapshot(pages: seq<int>, frames: nat, k: nat)
    requires frames >= 1 && k < |pages|
    ensures var h := LruAfter(pages, frames, |pages|).history[k];
      NoDups(h) && pages[k] in h && |h| <= frames &&
      |h| == Min(frames, LruAfter(pages, frames, k + 1).misses)
  {
    LruHistory(pages, frames, |pages|, k);
    LruCounts(pages, frames, k + 1);
    LruDistinct(pages, frames, k + 1);
  }

  // --------------------------------------------------------------- Optimal

  /** `optimal_page_replacement`'s variables after some steps. */
  datatype OptimalState = OptimalState(
    frameList: seq<int>, history: seq<seq<int>>, hits: nat, misses: nat)

  /** What the Optimal step relies on: at most `frames` residents. */
  predicate OptimalReady(s: OptimalState, frames: nat)
  {
    frames >= 1 && |s.frameList| <= frames
  }

  /** The `future_use` dict built at step `i`, as a list aligned with the
      slots: each resident's next reference as an index into
      `pages[i+1:]`, or never. */
  function FutureUse(pages: seq<int>, i: nat, frameList: seq<int>): (uses: seq<NextUse>)
    requires i < |pages|
    ensures |uses| == |frameList|
  {
    seq(|frameList|, j requires 0 <= j < |frameList| => NextUseAfter(pages, i, frameList[j]))
  }

  /** Step `i`: a hit changes nothing but the counter; a miss fills the next
      free slot or overwrites the resident whose next use is farthest away. */
  function OptimalStep(s: OptimalState, pages: seq<int>, i: nat, frames: nat): (t: OptimalState)
    requires i < |pages| && OptimalReady(s, frames)
    ensures OptimalReady(t, frames)
    ensures pages[i] in t.frameList
    ensures |t.history| == |s.history| + 1 && t.hits + t.misses == s.hits + s.misses + 1
  {
    var page := pages[i];
    if page in s.frameList then
      s.(history := s.history + [s.frameList], hits := s.hits + 1)
    else if |s.frameList| < frames then
      var fl := s.frameList + [page];
      s.(frameList := fl, history := s.history + [fl], misses := s.misses + 1)
    else
      var v := Farthest(FutureUse(pages, i, s.frameList));
      var fl := s.frameList[v := page];
      assert fl[v] == page;
      s.(frameList := fl, history := s.history + [fl], misses := s.misses + 1)
  }

  /** The Optimal state after the first `n` references of `pages`. */
  function OptimalAfter(pages: seq<int>, frames: nat, n: nat): (s: OptimalState)
    requires frames >= 1 && n <= |pages|
    ensures OptimalReady(s, frames)
    ensures |s.history| == n && s.hits + s.misses == n
    decreases n
  {
    if n == 0 then OptimalState([], [], 0, 0)
    else OptimalStep(OptimalAfter(pages, frames, n - 1), pages, n - 1, frames)
  }

  /** `optimal_page_replacement(pages, frames)`. */
  method OptimalPageReplacement(pages: seq<int>, frames: nat)
    returns (history: seq<seq<int>>, hits: nat, misses: nat)
    requires frames >= 1
    ensures var r := OptimalAfter(pages, frames, |pages|);
      history == r.history && hits == r.hits && misses == r.misses
    ensures |history| == |pages| && hits + misses == |pages|
  {
    var frameList: seq<int> := [];
    history, hits, misses := [], 0, 0;
    var i := 0;
    while i < |pages|
      invariant i <= |pages|
      invariant OptimalAfter(pages, frames, i) == OptimalState(frameList, history, hits, misses)
    {
      ghost var next := OptimalAfter(pages, frames, i + 1);
      var page := pages[i];
      if page in frameList {
        hits := hits + 1;
      } else {
        misses := misses + 1;
        if |frameList| < frames {
          frameList := frameList + [page];
        } else {
          var futureUse := FutureUse(pages, i, frameList);
          var pageToReplace := frameList[Farthest(futureUse)];
          OptimalDistinct(pages, frames, i);
          IndexOfSlot(frameList, Farthest(futureUse));
          frameList := frameList[IndexOf(frameList, pageToReplace) := page];
        }
      }
      history := history + [frameList];
      i := i + 1;
      assert next == OptimalState(frameList, history, hits, misses);
    }
  }

  /** The Optimal frame list holds `min(frames, misses)` pages. */
  lemma {:induction false} OptimalCounts(pages: seq<int>, frames: nat, n: nat)
    requires frames >= 1 && n <= |pages|
    ensures |OptimalAfter(pages, frames, n).frameList| == Min(frames, OptimalAfter(pages, frames, n).misses)
  {
    if n > 0 {
      OptimalCounts(pages, frames, n - 1);
    }
  }

  /** No page ever occupies two Optimal slots. */
  lemma {:induction false} OptimalDistinct(pages: seq<int>, frames: nat, n: nat)
    requires frames >= 1 && n <= |pages|
    ensures NoDups(OptimalAfter(pages, frames, n).frameList)
  {
    if n > 0 {
      var r := OptimalAfter(pages, frames, n - 1);
      OptimalDistinct(pages, frames, n - 1);
      if pages[n - 1] !in r.frameList && |r.frameList| == frames {
        ReplaceSlot(r.frameList, Farthest(FutureUse(pages, n - 1, r.frameList)), pages[n - 1]);
      }
    }
  }

  /** The effect of Optimal step `k`. A hit leaves the frame list alone; a
      cold miss appends; an eviction overwrites one slot and no other (the
      slot where the new page now sits), and that slot obeys Belady's victim
      rule on the references still to come. */
  lemma OptimalStepEffect(pages: seq<int>, frames: nat, k: nat)
    requires frames >= 1 && k < |pages|
    ensures var s, t := OptimalAfter(pages, frames, k), OptimalAfter(pages, frames, k + 1);
      pages[k] in s.frameList ==> t.frameList == s.frameList
    ensures var s, t := OptimalAfter(pages, frames, k), OptimalAfter(pages, frames, k + 1);
      pages[k] !in s.frameList && |s.frameList| < frames ==> t.frameList == s.frameList + [pages[k]]
    ensures var s, t := OptimalAfter(pages, frames, k), OptimalAfter(pages, frames, k + 1);
      pages[k] !in s.frameList && |s.frameList| == frames ==>
        BeladyEviction(s.frameList, t.frameList, pages[k], pages[k + 1..], IndexOf(t.frameList, pages[k]))
  {
    var s := OptimalAfter(pages, frames, k);
    if pages[k] !in s.frameList && |s.frameList| == frames {
      var uses := FutureUse(pages, k, s.frameList);
      var v := Farthest(uses);
      OptimalDistinct(pages, frames, k);
      FarthestIsBeladyVictim(pages, k, s.frameList, uses, 0);
      IndexOfSlot(s.frameList[v := pages[k]], v);
    }
  }

  /** Optimal snapshot `k` is the frame list right after step `k`. */
  lemma {:induction false} OptimalHistory(pages: seq<int>, frames: nat, n: nat, k: nat)
    requires frames >= 1 && k < n <= |pages|
    ensures OptimalAfter(pages, frames, n).history[k] == OptimalAfter(pages, frames, k + 1).frameList
  {
    if k < n - 1 {
      OptimalHistory(pages, frames, n - 1, k);
    }
  }

  /** Every Optimal snapshot is duplicate-free, holds the page just
      referenced and has `min(frames, misses so far)` entries. */
  lemma OptimalSnapshot(pages: seq<int>, frames: nat, k: nat)
    requires frames >= 1 && k < |pages|
    ensures var h := OptimalAfter(pages, frames, |pages|).history[k];
      NoDups(h) && pages[k] in h && |h| <= frames &&
      |h| == Min(frames, OptimalAfter(pages, frames, k + 1).misses)
  {
    OptimalHistory(pages, frames, |pages|, k);
    OptimalCounts(pages, frames, k + 1);
    OptimalDistinct(pages, frames, k + 1);
  }
}
