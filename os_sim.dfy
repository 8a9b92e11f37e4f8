/** The three engines of OS_PAGE_REPLACEMENT_SIM.py. Each walks the reference
    string once, keeps the resident pages in `frame_list` (slot positions are
    stable: a victim is overwritten in place), records a snapshot per step,
    counts hits and misses, and logs every eviction as a `Fault` in
    `fault_positions`.

    Every engine is given twice: a specification (a state datatype, a `Step`
    function for one reference and an `After` function for the first `n`
    references) and a method whose loop mirrors the Python loop and is proved
    to compute the specification's final state. */
module OsSim {
  import opened PageLists

  /** One `fault_positions` entry: the step, the new page and the slot it
      overwrote. */
  datatype Fault = Fault(step: nat, page: int, slot: nat)

  /** A fault log after `n` steps: each entry names a step already taken, the
      page referenced at that step and a slot below `frames`, and each entry's
      step comes strictly after the previous entry's (at most one entry per
      step, in step order). */
  predicate FaultLogValid(faults: seq<Fault>, pages: seq<int>, frames: nat, n: nat)
  {
    n <= |pages| &&
    (forall e :: 0 <= e < |faults| ==>
       faults[e].step < n && faults[e].page == pages[faults[e].step] && faults[e].slot < frames) &&
    (forall e :: 0 < e < |faults| ==> faults[e - 1].step < faults[e].step)
  }

  /** Step `i` keeps a valid log valid, whether it logs nothing or logs the
      eviction of a slot below `frames` by `pages[i]`. */
  lemma LogStep(faults: seq<Fault>, pages: seq<int>, frames: nat, i: nat, slot: nat)
    requires FaultLogValid(faults, pages, frames, i) && i < |pages| && slot < frames
    ensures FaultLogValid(faults, pages, frames, i + 1)
    ensures FaultLogValid(faults + [Fault(i, pages[i], slot)], pages, frames, i + 1)
  {
    var log := faults + [Fault(i, pages[i], slot)];
    assert forall e :: 0 <= e < |faults| ==> log[e] == faults[e];
  }

  // ------------------------------------------------------------------ FIFO

  /** `fifo_page_replacement`'s variables after some steps; `fifoIndex` is the
      rotating cursor over slots. */
  datatype FifoState = FifoState(
    frameList: seq<int>, fifoIndex: nat,
    history: seq<seq<int>>, hits: nat, misses: nat, faults: seq<Fault>)

  /** What the FIFO step relies on: at most `frames` residents and a cursor
      that names a slot. */
  predicate FifoReady(s: FifoState, frames: nat)
  {
    |s.frameList| <= frames && s.fifoIndex < frames
  }

  /** One reference: a hit changes nothing but the counter; a miss fills the
      next free slot or overwrites the slot under the cursor and advances it. */
  function FifoStep(s: FifoState, i: nat, page: int, frames: nat): (t: FifoState)
    requires FifoReady(s, frames)
    ensures FifoReady(t, frames)
    ensures page in t.frameList
    ensures |t.history| == |s.history| + 1 && t.hits + t.misses == s.hits + s.misses + 1
  {
    if page in s.frameList then
      s.(history := s.history + [s.frameList], hits := s.hits + 1)
    else if |s.frameList| < frames then
      var fl := s.frameList + [page];
      s.(frameList := fl, history := s.history + [fl], misses := s.misses + 1)
    else
      var fl := s.frameList[s.fifoIndex := page];
      assert fl[s.fifoIndex] == page;
      s.(frameList := fl, fifoIndex := (s.fifoIndex + 1) % frames,
         history := s.history + [fl], misses := s.misses + 1,
         faults := s.faults + [Fault(i, page, s.fifoIndex)])
  }

  /** The state after the first `n` references of `pages`. */
  function FifoAfter(pages: seq<int>, frames: nat, n: nat): (s: FifoState)
    requires frames >= 1 && n <= |pages|
    ensures FifoReady(s, frames)
    ensures |s.history| == n && s.hits + s.misses == n
    decreases n
  {
    if n == 0 then FifoState([], 0, [], 0, 0, [])
    else FifoStep(FifoAfter(pages, frames, n - 1), n - 1, pages[n - 1], frames)
  }

  /** `fifo_page_replacement(pages, frames)`. */
  method FifoPageReplacement(pages: seq<int>, frames: nat)
    returns (history: seq<seq<int>>, hits: nat, misses: nat, faultPositions: seq<Fault>)
    requires frames >= 1
    ensures var r := FifoAfter(pages, frames, |pages|);
      history == r.history && hits == r.hits && misses == r.misses && faultPositions == r.faults
    ensures |history| == |pages| && hits + misses == |pages|
  {
    var frameList: seq<int> := [];
    history, hits, misses, faultPositions := [], 0, 0, [];
    var fifoIndex: nat := 0;
    var i := 0;
    while i < |pages|
      invariant i <= |pages|
      invariant FifoAfter(pages, frames, i)
             == FifoState(frameList, fifoIndex, history, hits, misses, faultPositions)
    {
      var page := pages[i];
      if page in frameList {
        hits := hits + 1;
      } else {
        misses := misses + 1;
        if |frameList| < frames {
          frameList := frameList + [page];
        } else {
          var replacedIndex := fifoIndex;
          frameList := frameList[replacedIndex := page];
          faultPositions := faultPositions + [Fault(i, page, replacedIndex)];
          fifoIndex := (fifoIndex + 1) % frames;
        }
      }
      history := history + [frameList];
      i := i + 1;
    }
  }

  /** The counters agree with the frame list: it holds `min(frames, misses)`
      pages, every miss beyond the first `frames` is one logged eviction, and
      the cursor has advanced once per eviction (so it starts at 0 and hits
      never move it). */
  predicate FifoCounted(s: FifoState, frames: nat)
    requires frames >= 1
  {
    |s.frameList| == Min(frames, s.misses) &&
    |s.faults| == s.misses - Min(frames, s.misses) &&
    s.fifoIndex == |s.faults| % frames
  }

  /** The FIFO counters always agree with the frame list. */
  lemma {:induction false} FifoCounts(pages: seq<int>, frames: nat, n: nat)
    requires frames >= 1 && n <= |pages|
    ensures FifoCounted(FifoAfter(pages, frames, n), frames)
  {
    if n > 0 {
      FifoCounts(pages, frames, n - 1);
      FifoCountStep(FifoAfter(pages, frames, n - 1), n - 1, pages[n - 1], frames);
    }
  }

  /** One step keeps the counters in agreement with the frame list. */
  lemma FifoCountStep(s: FifoState, i: nat, page: int, frames: nat)
    requires FifoReady(s, frames) && frames >= 1 && FifoCounted(s, frames)
    ensures FifoCounted(FifoStep(s, i, page, frames), frames)
  {
    if page !in s.frameList && |s.frameList| == frames {
      ModNext(|s.faults|, frames);
    }
  }

  /** Until the frame list is full the cursor stays on slot 0. */
  lemma FifoCursorAtStart(pages: seq<int>, frames: nat, n: nat)
    requires frames >= 1 && n <= |pages|
    ensures var s := FifoAfter(pages, frames, n);
      |s.frameList| < frames ==> s.fifoIndex == 0
  {
    FifoCounts(pages, frames, n);
    var s := FifoAfter(pages, frames, n);
    if |s.frameList| < frames {
      assert |s.faults| == 0;
    }
  }

  /** The effect of step `k` on the frame list, the cursor and the log. A hit
      changes none of them; a cold miss appends while the cursor stays at 0;
      an eviction overwrites the slot under the cursor and no other slot,
      logs exactly one entry and moves the cursor one slot on, wrapping. */
  lemma FifoStepEffect(pages: seq<int>, frames: nat, k: nat)
    requires frames >= 1 && k < |pages|
    ensures var s, t := FifoAfter(pages, frames, k), FifoAfter(pages, frames, k + 1);
      pages[k] in s.frameList ==>
        t.frameList == s.frameList && t.fifoIndex == s.fifoIndex && t.faults == s.faults
    ensures var s, t := FifoAfter(pages, frames, k), FifoAfter(pages, frames, k + 1);
      pages[k] !in s.frameList && |s.frameList| < frames ==>
        t.frameList == s.frameList + [pages[k]] && t.fifoIndex == 0 && t.faults == s.faults
    ensures var s, t := FifoAfter(pages, frames, k), FifoAfter(pages, frames, k + 1);
      var c := s.fifoIndex;
      pages[k] !in s.frameList && |s.frameList| == frames ==>
        t.faults == s.faults + [Fault(k, pages[k], c)] &&
        |t.frameList| == frames && t.frameList[c] == pages[k] &&
        (forall j :: 0 <= j < frames && j != c ==> t.frameList[j] == s.frameList[j]) &&
        t.fifoIndex == if c + 1 == frames then 0 else c + 1
  {
    var s := FifoAfter(pages, frames, k);
    if pages[k] !in s.frameList {
      if |s.frameList| < frames {
        FifoCursorAtStart(pages, frames, k);
      } else {
        ModWrap(s.fifoIndex, frames);
      }
    }
  }

  /** The `e`-th eviction overwrote slot `e mod frames`. */
  predicate SlotsInTurn(faults: seq<Fault>, frames: nat)
    requires frames >= 1
  {
    forall e :: 0 <= e < |faults| ==> faults[e].slot == e % frames
  }

  /** The FIFO fault log is valid. */
  lemma {:induction false} FifoFaultLog(pages: seq<int>, frames: nat, n: nat)
    requires frames >= 1 && n <= |pages|
    ensures FaultLogValid(FifoAfter(pages, frames, n).faults, pages, frames, n)
  {
    if n > 0 {
      FifoFaultLog(pages, frames, n - 1);
      FifoLogStep(FifoAfter(pages, frames, n - 1), pages, n - 1, frames);
    }
  }

  /** One FIFO step keeps the fault log valid. */
  lemma FifoLogStep(s: FifoState, pages: seq<int>, i: nat, frames: nat)
    requires FifoReady(s, frames) && i < |pages|
    requires FaultLogValid(s.faults, pages, frames, i)
    ensures FaultLogValid(FifoStep(s, i, pages[i], frames).faults, pages, frames, i + 1)
  {
    LogStep(s.faults, pages, frames, i, s.fifoIndex);
  }

  /** The `e`-th eviction overwrote slot `e mod frames`: evictions cycle
      through the slots in order. */
  lemma {:induction false} FifoRoundRobin(pages: seq<int>, frames: nat, n: nat)
    requires frames >= 1 && n <= |pages|
    ensures SlotsInTurn(FifoAfter(pages, frames, n).faults, frames)
  {
    if n > 0 {
      FifoRoundRobin(pages, frames, n - 1);
      FifoCounts(pages, frames, n - 1);
      FifoTurnStep(FifoAfter(pages, frames, n - 1), n - 1, pages[n - 1], frames);
    }
  }

  /** A FIFO step whose cursor is the number of evictions so far, wrapped,
      logs its eviction (if any) against the next slot in turn. */
  lemma FifoTurnStep(s: FifoState, i: nat, page: int, frames: nat)
    requires FifoReady(s, frames) && frames >= 1
    requires s.fifoIndex == |s.faults| % frames && SlotsInTurn(s.faults, frames)
    ensures SlotsInTurn(FifoStep(s, i, page, frames).faults, frames)
  {
    var t := FifoStep(s, i, page, frames);
    if page !in s.frameList && |s.frameList| == frames {
      assert t.faults == s.faults + [Fault(i, page, s.fifoIndex)];
      forall e | 0 <= e < |t.faults|
        ensures t.faults[e].slot == e % frames
      {
        if e < |s.faults| {
          assert t.faults[e] == s.faults[e];
        }
      }
    }
  }

  /** No page ever occupies two slots: a miss only brings in a page that is
      not resident. */
  lemma {:induction false} FifoDistinct(pages: seq<int>, frames: nat, n: nat)
    requires frames >= 1 && n <= |pages|
    ensures NoDups(FifoAfter(pages, frames, n).frameList)
  {
    if n > 0 {
      var r := FifoAfter(pages, frames, n - 1);
      FifoDistinct(pages, frames, n - 1);
      if pages[n - 1] !in r.frameList && |r.frameList| == frames {
        ReplaceSlot(r.frameList, r.fifoIndex, pages[n - 1]);
      }
    }
  }

  /** FIFO snapshot `k` is the frame list right after step `k`. */
  lemma {:induction false} FifoHistory(pages: seq<int>, frames: nat, n: nat, k: nat)
    requires frames >= 1 && k < n <= |pages|
    ensures FifoAfter(pages, frames, n).history[k] == FifoAfter(pages, frames, k + 1).frameList
  {
    if k < n - 1 {
      FifoHistory(pages, frames, n - 1, k);
    }
  }

  /** Every snapshot is duplicate-free, holds the page just referenced and
      has `min(frames, misses so far)` entries. */
  lemma FifoSnapshot(pages: seq<int>, frames: nat, k: nat)
    requires frames >= 1 && k < |pages|
    ensures var h := FifoAfter(pages, frames, |pages|).history[k];
      NoDups(h) && pages[k] in h && |h| <= frames &&
      |h| == Min(frames, FifoAfter(pages, frames, k + 1).misses)
  {
    FifoHistory(pages, frames, |pages|, k);
    FifoCounts(pages, frames, k + 1);
    FifoDistinct(pages, frames, k + 1);
  }

  // ------------------------------------------------------------------- LRU

  /** `lru_page_replacement`'s variables after some steps; `indexes` maps
      each page to the last step at which it was referenced. */
  datatype LruState = LruState(
    frameList: seq<int>, indexes: map<int, nat>,
    history: seq<seq<int>>, hits: nat, misses: nat, faults: seq<Fault>)

  /** What the LRU step relies on: at most `frames` residents. */
  predicate LruReady(s: LruState, frames: nat)
  {
    frames >= 1 && |s.frameList| <= frames
  }

  /** The last-used index of page `p`. Every resident has one (`LruKeys`);
      the 0 for a page without one is never consulted. */
  function LastUsed(indexes: map<int, nat>, p: int): nat
  {
    if p in indexes then indexes[p] else 0
  }

  /** The slot of the resident with the smallest last-used index, scanning
      the slots in order and keeping the first on ties. */
  function LeastRecentSlot(frameList: seq<int>, indexes: map<int, nat>): (v: nat)
    requires |frameList| > 0
    ensures v < |frameList|
    decreases |frameList|
  {
    if |frameList| == 1 then 0
    else
      var front := frameList[..|frameList| - 1];
      var b := LeastRecentSlot(front, indexes);
      if LastUsed(indexes, frameList[|frameList| - 1]) < LastUsed(indexes, frameList[b])
      then |frameList| - 1 else b
  }

  /** The resident in `LeastRecentSlot` has the smallest last-used index. */
  lemma {:induction false} LeastRecentSlotIsMin(frameList: seq<int>, indexes: map<int, nat>)
    requires |frameList| > 0
    ensures forall j :: 0 <= j < |frameList| ==>
      LastUsed(indexes, frameList[LeastRecentSlot(frameList, indexes)])
        <= LastUsed(indexes, frameList[j])
    decreases |frameList|
  {
    if |frameList| > 1 {
      var front := frameList[..|frameList| - 1];
      assert forall j :: 0 <= j < |front| ==> front[j] == frameList[j];
      LeastRecentSlotIsMin(front, indexes);
    }
  }

  /** One reference: a hit refreshes the page's last-used index; a miss fills
      the next free slot, or overwrites the least recently used resident in
      its own slot and drops that page's index. */
  function LruStep(s: LruState, i: nat, page: int, frames: nat): (t: LruState)
    requires LruReady(s, frames)
    ensures LruReady(t, frames)
    ensures page in t.frameList
    ensures |t.history| == |s.history| + 1 && t.hits + t.misses == s.hits + s.misses + 1
  {
    if page in s.frameList then
      s.(indexes := s.indexes[page := i], history := s.history + [s.frameList], hits := s.hits + 1)
    else if |s.frameList| < frames then
      var fl := s.frameList + [page];
      s.(frameList := fl, indexes := s.indexes[page := i],
         history := s.history + [fl], misses := s.misses + 1)
    else
      var v := LeastRecentSlot(s.frameList, s.indexes);
      var fl := s.frameList[v := page];
      assert fl[v] == page;
      s.(frameList := fl, indexes := (s.indexes - {s.frameList[v]})[page := i],
         history := s.history + [fl], misses := s.misses + 1,
         faults := s.faults + [Fault(i, page, v)])
  }

  /** The LRU state after the first `n` references of `pages`. */
  function LruAfter(pages: seq<int>, frames: nat, n: nat): (s: LruState)
    requires frames >= 1 && n <= |pages|
    ensures LruReady(s, frames)
    ensures |s.history| == n && s.hits + s.misses == n
    decreases n
  {
    if n == 0 then LruState([], map[], [], 0, 0, [])
    else LruStep(LruAfter(pages, frames, n - 1), n - 1, pages[n - 1], frames)
  }

  /** `min(indexes, key=indexes.get)`: a key with the smallest value. The
      keys are visited in an arbitrary order, as a dict's order is not
      modelled; the values are distinct in every call the engine makes
      (`LruIndexes`), so the answer is the same for every order. */
  method LeastRecentlyUsed(indexes: map<int, nat>) returns (lru: int)
    requires indexes.Keys != {}
    ensures lru in indexes
    ensures forall p :: p in indexes ==> indexes[lru] <= indexes[p]
  {
    var keys := indexes.Keys;
    SomeElement(keys);
    lru :| lru in keys;
    keys := keys - {lru};
    while keys != {}
      invariant keys <= indexes.Keys && lru in indexes
      invariant forall p :: p in indexes && p !in keys ==> indexes[lru] <= indexes[p]
      decreases keys
    {
      SomeElement(keys);
      var p :| p in keys;
      if indexes[p] < indexes[lru] {
        lru := p;
      }
      keys := keys - {p};
    }
  }

  /** `lru_page_replacement(pages, frames)`. */
  method LruPageReplacement(pages: seq<int>, frames: nat)
    returns (history: seq<seq<int>>, hits: nat, misses: nat, faultPositions: seq<Fault>)
    requires frames >= 1
    ensures var r := LruAfter(pages, frames, |pages|);
      history == r.history && hits == r.hits && misses == r.misses && faultPositions == r.faults
    ensures |history| == |pages| && hits + misses == |pages|
  {
    var frameList: seq<int> := [];
    history, hits, misses, faultPositions := [], 0, 0, [];
    var indexes: map<int, nat> := map[];
    var i := 0;
    while i < |pages|
      invariant i <= |pages|
      invariant LruAfter(pages, frames, i)
             == LruState(frameList, indexes, history, hits, misses, faultPositions)
    {
      ghost var next := LruAfter(pages, frames, i + 1);
      var page := pages[i];
      if page in frameList {
        hits := hits + 1;
        indexes := indexes[page := i];
      } else {
        misses := misses + 1;
        if |frameList| < frames {
          frameList := frameList + [page];
        } else {
          ghost var v := LeastRecentSlot(frameList, indexes);
          LruKeys(pages, frames, i);
          assert frameList[0] in frameList;
          var lruPage := LeastRecentlyUsed(indexes);
          LeastRecentIsUnique(pages, frames, i, lruPage);
          var replacedIndex := IndexOf(frameList, lruPage);
          assert replacedIndex == v && lruPage == frameList[v];
          frameList := frameList[replacedIndex := page];
          faultPositions := faultPositions + [Fault(i, page, replacedIndex)];
          indexes := indexes - {lruPage};
        }
        indexes := indexes[page := i];
      }
      history := history + [frameList];
      i := i + 1;
      assert next == LruState(frameList, indexes, history, hits, misses, faultPositions);
    }
  }

  /** The LRU counters agree with the frame list: it holds
      `min(frames, misses)` pages and every later miss is one logged
      eviction. */
  lemma {:induction false} LruCounts(pages: seq<int>, frames: nat, n: nat)
    requires frames >= 1 && n <= |pages|
    ensures var s := LruAfter(pages, frames, n);
      |s.frameList| == Min(frames, s.misses) &&
      |s.faults| == s.misses - Min(frames, s.misses)
  {
    if n > 0 {
      LruCounts(pages, frames, n - 1);
      LruCountStep(LruAfter(pages, frames, n - 1), n - 1, pages[n - 1], frames);
    }
  }

  /** One LRU step keeps the counters in agreement with the frame list. */
  lemma LruCountStep(s: LruState, i: nat, page: int, frames: nat)
    requires LruReady(s, frames)
    requires |s.frameList| == Min(frames, s.misses) && |s.faults| == s.misses - Min(frames, s.misses)
    ensures var t := LruStep(s, i, page, frames);
      |t.frameList| == Min(frames, t.misses) && |t.faults| == t.misses - Min(frames, t.misses)
  {
  }

  /** No page ever occupies two LRU slots. */
  lemma {:induction false} LruDistinct(pages: seq<int>, frames: nat, n: nat)
    requires frames >= 1 && n <= |pages|
    ensures NoDups(LruAfter(pages, frames, n).frameList)
  {
    if n > 0 {
      var r := LruAfter(pages, frames, n - 1);
      LruDistinct(pages, frames, n - 1);
      if pages[n - 1] !in r.frameList && |r.frameList| == frames {
        ReplaceSlot(r.frameList, LeastRecentSlot(r.frameList, r.indexes), pages[n - 1]);
      }
    }
  }

  /** The keys of `indexes` are exactly the resident pages. */
  ghost predicate KeysAreResidents(s: LruState)
  {
    forall p :: p in s.indexes <==> p in s.frameList
  }

  /** Each key of `indexes` is mapped to the last step, among the first `n`,
      at which that page was referenced. */
  ghost predicate IndexesAreLastRefs(s: LruState, pages: seq<int>, n: nat)
    requires n <= |pages|
  {
    forall p :: p in s.indexes ==> s.indexes[p] == LastRef(pages[..n], p)
  }

  /** No two keys share a last-used index. */
  ghost predicate IndexesDistinct(s: LruState)
  {
    forall p, q :: p in s.indexes && q in s.indexes && p != q ==> s.indexes[p] != s.indexes[q]
  }

  /** Misses add their page to `indexes`, evictions remove the victim's: the
      keys always are the resident pages. */
  lemma {:induction false} LruKeys(pages: seq<int>, frames: nat, n: nat)
    requires frames >= 1 && n <= |pages|
    ensures KeysAreResidents(LruAfter(pages, frames, n))
  {
    if n > 0 {
      var r := LruAfter(pages, frames, n - 1);
      var page := pages[n - 1];
      var s := LruAfter(pages, frames, n);
      LruKeys(pages, frames, n - 1);
      assert s == LruStep(r, n - 1, page, frames);
      if page in r.frameList {
        assert s.frameList == r.frameList && s.indexes == r.indexes[page := n - 1];
      } else if |r.frameList| < frames {
        assert s.frameList == r.frameList + [page] && s.indexes == r.indexes[page := n - 1];
        forall p
          ensures p in s.indexes <==> p in s.frameList
        {
          assert p in r.indexes <==> p in r.frameList;
          assert p in s.frameList <==> p == page || p in r.frameList;
        }
      } else {
        var v := LeastRecentSlot(r.frameList, r.indexes);
        LruDistinct(pages, frames, n - 1);
        ReplaceSlot(r.frameList, v, page);
        assert s.frameList == r.frameList[v := page];
        assert s.indexes == (r.indexes - {r.frameList[v]})[page := n - 1];
        forall p
          ensures p in s.indexes <==> p in s.frameList
        {
          assert p in s.indexes <==> p == page || (p in r.indexes && p != r.frameList[v]);
          assert p in r.indexes <==> p in r.frameList;
          assert p in s.frameList <==> p == page || (p in r.frameList && p != r.frameList[v]);
        }
      }
    }
  }

  /** Each key of `indexes` maps to the last step at which that page was
      referenced; so no two residents share a last-used index. */
  lemma {:induction false} LruIndexes(pages: seq<int>, frames: nat, n: nat)
    requires frames >= 1 && n <= |pages|
    ensures KeysAreResidents(LruAfter(pages, frames, n))
    ensures IndexesAreLastRefs(LruAfter(pages, frames, n), pages, n)
    ensures IndexesDistinct(LruAfter(pages, frames, n))
  {
    var s := LruAfter(pages, frames, n);
    LruKeys(pages, frames, n);
    if n > 0 {
      LruIndexes(pages, frames, n - 1);
      LruLastRefStep(LruAfter(pages, frames, n - 1), pages, n - 1, frames);
    }
    forall p, q | p in s.indexes && q in s.indexes && p != q
      ensures s.indexes[p] != s.indexes[q]
    {
      LastRefDistinct(pages[..n], p, q);
    }
  }

  /** One LRU step keeps every key mapped to its page's last reference: the
      page just referenced gets the current step, every other key keeps its
      index or is dropped. */
  lemma LruLastRefStep(s: LruState, pages: seq<int>, i: nat, frames: nat)
    requires LruReady(s, frames) && i < |pages|
    requires IndexesAreLastRefs(s, pages, i)
    ensures IndexesAreLastRefs(LruStep(s, i, pages[i], frames), pages, i + 1)
  {
    var t := LruStep(s, i, pages[i], frames);
    assert pages[..i + 1] == pages[..i] + [pages[i]];
    forall p | p in t.indexes
      ensures t.indexes[p] == LastRef(pages[..i + 1], p)
    {
      LastRefSnoc(pages[..i], pages[i], p);
      if p != pages[i] {
        assert p in s.indexes && t.indexes[p] == s.indexes[p];
      }
    }
  }

  /** Because last-used indices are distinct, the page that `min` returns is
      the resident in the least-recent slot, whatever order the dict is
      scanned in. */
  lemma LeastRecentIsUnique(pages: seq<int>, frames: nat, n: nat, lru: int)
    requires frames >= 1 && n <= |pages|
    requires var s := LruAfter(pages, frames, n);
      |s.frameList| > 0 && lru in s.indexes &&
      forall p :: p in s.indexes ==> s.indexes[lru] <= s.indexes[p]
    ensures var s := LruAfter(pages, frames, n);
      lru in s.frameList && IndexOf(s.frameList, lru) == LeastRecentSlot(s.frameList, s.indexes)
  {
    var s := LruAfter(pages, frames, n);
    LruIndexes(pages, frames, n);
    LruDistinct(pages, frames, n);
    var v := LeastRecentSlot(s.frameList, s.indexes);
    LeastRecentSlotIsMin(s.frameList, s.indexes);
    var j :| 0 <= j < |s.frameList| && s.frameList[j] == lru;
    assert LastUsed(s.indexes, s.frameList[v]) <= LastUsed(s.indexes, lru);
    IndexOfSlot(s.frameList, v);
  }

  /** The effect of LRU step `k`. A hit leaves the frame list and the log
      alone and makes `k` the page's last-used index; an eviction logs one
      entry, overwrites that entry's slot and no other, and the page it
      evicts was referenced less recently than every other resident. */
  lemma LruStepEffect(pages: seq<int>, frames: nat, k: nat)
    requires frames >= 1 && k < |pages|
    ensures var s, t := LruAfter(pages, frames, k), LruAfter(pages, frames, k + 1);
      pages[k] in s.frameList ==>
        t.frameList == s.frameList && t.faults == s.faults && t.indexes[pages[k]] == k
    ensures var s, t := LruAfter(pages, frames, k), LruAfter(pages, frames, k + 1);
      pages[k] !in s.frameList && |s.frameList| < frames ==>
        t.frameList == s.frameList + [pages[k]] && t.faults == s.faults
    ensures var s, t := LruAfter(pages, frames, k), LruAfter(pages, frames, k + 1);
      pages[k] !in s.frameList && |s.frameList| == frames ==>
        |t.faults| == |s.faults| + 1 && t.faults[..|s.faults|] == s.faults &&
        var f := t.faults[|s.faults|];
        f.step == k && f.page == pages[k] && f.slot < frames &&
        t.frameList == s.frameList[f.slot := pages[k]] &&
        forall j :: 0 <= j < frames && j != f.slot ==>
          LastRef(pages[..k], s.frameList[f.slot]) < LastRef(pages[..k], s.frameList[j])
  {
    var s := LruAfter(pages, frames, k);
    if pages[k] !in s.frameList && |s.frameList| == frames {
      LruIndexes(pages, frames, k);
      var v := LeastRecentSlot(s.frameList, s.indexes);
      LeastRecentSlotIsMin(s.frameList, s.indexes);
      forall j | 0 <= j < frames && j != v
        ensures LastRef(pages[..k], s.frameList[v]) < LastRef(pages[..k], s.frameList[j])
      {
        assert s.frameList[v] in s.frameList && s.frameList[j] in s.frameList;
        LruDistinct(pages, frames, k);
        assert s.indexes[s.frameList[v]] != s.indexes[s.frameList[j]];
      }
    }
  }

  /** The LRU fault log is valid. */
  lemma {:induction false} LruFaultLog(pages: seq<int>, frames: nat, n: nat)
    requires frames >= 1 && n <= |pages|
    ensures FaultLogValid(LruAfter(pages, frames, n).faults, pages, frames, n)
  {
    if n > 0 {
      LruFaultLog(pages, frames, n - 1);
      LruLogStep(LruAfter(pages, frames, n - 1), pages, n - 1, frames);
    }
  }

  /** One LRU step keeps the fault log valid. */
  lemma LruLogStep(s: LruState, pages: seq<int>, i: nat, frames: nat)
    requires LruReady(s, frames) && i < |pages|
    requires FaultLogValid(s.faults, pages, frames, i)
    ensures FaultLogValid(LruStep(s, i, pages[i], frames).faults, pages, frames, i + 1)
  {
    if pages[i] !in s.frameList && |s.frameList| == frames {
      LogStep(s.faults, pages, frames, i, LeastRecentSlot(s.frameList, s.indexes));
    } else {
      LogStep(s.faults, pages, frames, i, 0);
    }
  }

  /** LRU snapshot `k` is the frame list right after step `k`. */
  lemma {:induction false} LruHistory(pages: seq<int>, frames: nat, n: nat, k: nat)
    requires frames >= 1 && k < n <= |pages|
    ensures LruAfter(pages, frames, n).history[k] == LruAfter(pages, frames, k + 1).frameList
  {
    if k < n - 1 {
      LruHistory(pages, frames, n - 1, k);
    }
  }

  /** Every LRU snapshot is duplicate-free, holds the page just referenced
      and has `min(frames, misses so far)` entries. */
  lemma LruSnapshot(pages: seq<int>, frames: nat, k: nat)
    requires frames >= 1 && k < |pages|
    ensures var h := LruAfter(pages, frames, |pages|).history[k];
      NoDups(h) && pages[k] in h && |h| <= frames &&
      |h| == Min(frames, LruAfter(pages, frames, k + 1).misses)
  {
    LruHistory(pages, frames, |pages|, k);
    LruCounts(pages, frames, k + 1);
    LruDistinct(pages, frames, k + 1);
  }

  // --------------------------------------------------------------- Optimal

  /** `optimal_page_replacement`'s variables after some steps. */
  datatype OptimalState = OptimalState(
    frameList: seq<int>, history: seq<seq<int>>, hits: nat, misses: nat, faults: seq<Fault>)

  /** What the Optimal step relies on: at most `frames` residents. */
  predicate OptimalReady(s: OptimalState, frames: nat)
  {
    frames >= 1 && |s.frameList| <= frames
  }

  /** The `future_use` dict built at step `i`, as a list aligned with the
      slots (the dict is built in `frame_list` order and its keys are
      distinct): the absolute step of each resident's next reference after
      `i`, or never. */
  function FutureUse(pages: seq<int>, i: nat, frameList: seq<int>): (uses: seq<NextUse>)
    requires i < |pages|
    ensures |uses| == |frameList|
  {
    seq(|frameList|, j requires 0 <= j < |frameList| => Shift(NextUseAfter(pages, i, frameList[j]), i + 1))
  }

  /** Step `i`: a hit changes nothing but the counter; a miss fills the next
      free slot or overwrites the resident whose next use is farthest away. */
  function OptimalStep(s: OptimalState, pages: seq<int>, i: nat, frames: nat): (t: OptimalState)
    requires i < |pages| && OptimalReady(s, frames)
    ensures OptimalReady(t, frames)
    ensures pages[i] in t.frameList
    ensures |t.history| == |s.history| + 1 && t.hits + t.misses == s.hits + s.misses + 1
  {
    var page := pages[i];
    if page in s.frameList then
      s.(history := s.history + [s.frameList], hits := s.hits + 1)
    else if |s.frameList| < frames then
      var fl := s.frameList + [page];
      s.(frameList := fl, history := s.history + [fl], misses := s.misses + 1)
    else
      var v := Farthest(FutureUse(pages, i, s.frameList));
      var fl := s.frameList[v := page];
      assert fl[v] == page;
      s.(frameList := fl, history := s.history + [fl], misses := s.misses + 1,
         faults := s.faults + [Fault(i, page, v)])
  }

  /** The Optimal state after the first `n` references of `pages`. */
  function OptimalAfter(pages: seq<int>, frames: nat, n: nat): (s: OptimalState)
    requires frames >= 1 && n <= |pages|
    ensures OptimalReady(s, frames)
    ensures |s.history| == n && s.hits + s.misses == n
    decreases n
  {
    if n == 0 then OptimalState([], [], 0, 0, [])
    else OptimalStep(OptimalAfter(pages, frames, n - 1), pages, n - 1, frames)
  }

  /** The loop that fills `future_use` at step `i`: every resident starts at
      never and is then given the absolute step of its next reference, if
      there is one. */
  method NextUses(pages: seq<int>, i: nat, frameList: seq<int>) returns (futureUse: seq<NextUse>)
    requires i < |pages|
    ensures futureUse == FutureUse(pages, i, frameList)
  {
    futureUse := seq(|frameList|, _ => Never);
    var j := 0;
    while j < |frameList|
      invariant j <= |frameList| && |futureUse| == |frameList|
      invariant forall m :: 0 <= m < j ==> futureUse[m] == FutureUse(pages, i, frameList)[m]
      invariant forall m :: j <= m < |frameList| ==> futureUse[m] == Never
    {
      var frame := frameList[j];
      if frame in pages[i + 1..] {
        futureUse := futureUse[j := At(IndexOf(pages[i + 1..], frame) + i + 1)];
      }
      j := j + 1;
    }
  }

  /** `optimal_page_replacement(pages, frames)`. */
  method OptimalPageReplacement(pages: seq<int>, frames: nat)
    returns (history: seq<seq<int>>, hits: nat, misses: nat, faultPositions: seq<Fault>)
    requires frames >= 1
    ensures var r := OptimalAfter(pages, frames, |pages|);
      history == r.history && hits == r.hits && misses == r.misses && faultPositions == r.faults
    ensures |history| == |pages| && hits + misses == |pages|
  {
    var frameList: seq<int> := [];
    history, hits, misses, faultPositions := [], 0, 0, [];
    var i := 0;
    while i < |pages|
      invariant i <= |pages|
      invariant OptimalAfter(pages, frames, i)
             == OptimalState(frameList, history, hits, misses, faultPositions)
    {
      ghost var next := OptimalAfter(pages, frames, i + 1);
      var page := pages[i];
      if page in frameList {
        hits := hits + 1;
      } else {
        misses := misses + 1;
        if |frameList| < frames {
          frameList := frameList + [page];
        } else {
          var futureUse := NextUses(pages, i, frameList);
          var pageToReplace := frameList[Farthest(futureUse)];
          var replacedIndex := IndexOf(frameList, pageToReplace);
          OptimalDistinct(pages, frames, i);
          IndexOfSlot(frameList, Farthest(futureUse));
          frameList := frameList[replacedIndex := page];
          faultPositions := faultPositions + [Fault(i, page, replacedIndex)];
        }
      }
      history := history + [frameList];
      i := i + 1;
      assert next == OptimalState(frameList, history, hits, misses, faultPositions);
    }
  }

  /** The Optimal counters agree with the frame list: it holds
      `min(frames, misses)` pages and every later miss is one logged
      eviction. */
  lemma {:induction false} OptimalCounts(pages: seq<int>, frames: nat, n: nat)
    requires frames >= 1 && n <= |pages|
    ensures var s := OptimalAfter(pages, frames, n);
      |s.frameList| == Min(frames, s.misses) &&
      |s.faults| == s.misses - Min(frames, s.misses)
  {
    if n > 0 {
      OptimalCounts(pages, frames, n - 1);
      OptimalCountStep(OptimalAfter(pages, frames, n - 1), pages, n - 1, frames);
    }
  }

  /** One Optimal step keeps the counters in agreement with the frame list. */
  lemma OptimalCountStep(s: OptimalState, pages: seq<int>, i: nat, frames: nat)
    requires OptimalReady(s, frames) && i < |pages|
    requires |s.frameList| == Min(frames, s.misses) && |s.faults| == s.misses - Min(frames, s.misses)
    ensures var t := OptimalStep(s, pages, i, frames);
      |t.frameList| == Min(frames, t.misses) && |t.faults| == t.misses - Min(frames, t.misses)
  {
  }

  /** No page ever occupies two Optimal slots. */
  lemma {:induction false} OptimalDistinct(pages: seq<int>, frames: nat, n: nat)
    requires frames >= 1 && n <= |pages|
    ensures NoDups(OptimalAfter(pages, frames, n).frameList)
  {
    if n > 0 {
      var r := OptimalAfter(pages, frames, n - 1);
      OptimalDistinct(pages, frames, n - 1);
      if pages[n - 1] !in r.frameList && |r.frameList| == frames {
        ReplaceSlot(r.frameList, Farthest(FutureUse(pages, n - 1, r.frameList)), pages[n - 1]);
      }
    }
  }

  /** The effect of Optimal step `k`. A hit leaves the frame list and the log
      alone; an eviction logs one entry and overwrites that entry's slot and
      no other, and that slot obeys Belady's victim rule on the references
      still to come. */
  lemma OptimalStepEffect(pages: seq<int>, frames: nat, k: nat)
    requires frames >= 1 && k < |pages|
    ensures var s, t := OptimalAfter(pages, frames, k), OptimalAfter(pages, frames, k + 1);
      pages[k] in s.frameList ==> t.frameList == s.frameList && t.faults == s.faults
    ensures var s, t := OptimalAfter(pages, frames, k), OptimalAfter(pages, frames, k + 1);
      pages[k] !in s.frameList && |s.frameList| < frames ==>
        t.frameList == s.frameList + [pages[k]] && t.faults == s.faults
    ensures var s, t := OptimalAfter(pages, frames, k), OptimalAfter(pages, frames, k + 1);
      var rest := pages[k + 1..];
      pages[k] !in s.frameList && |s.frameList| == frames ==>
        |t.faults| == |s.faults| + 1 && t.faults[..|s.faults|] == s.faults &&
        var f := t.faults[|s.faults|];
        f.step == k && f.page == pages[k] && f.slot < frames &&
        t.frameList == s.frameList[f.slot := pages[k]] &&
        BeladyVictim(s.frameList, rest, f.slot)
  {
    var s := OptimalAfter(pages, frames, k);
    if pages[k] !in s.frameList && |s.frameList| == frames {
      OptimalDistinct(pages, frames, k);
      FarthestIsBeladyVictim(pages, k, s.frameList, FutureUse(pages, k, s.frameList), k + 1);
    }
  }

  /** The Optimal fault log is valid. */
  lemma {:induction false} OptimalFaultLog(pages: seq<int>, frames: nat, n: nat)
    requires frames >= 1 && n <= |pages|
    ensures FaultLogValid(OptimalAfter(pages, frames, n).faults, pages, frames, n)
  {
    if n > 0 {
      OptimalFaultLog(pages, frames, n - 1);
      OptimalLogStep(OptimalAfter(pages, frames, n - 1), pages, n - 1, frames);
    }
  }

  /** One Optimal step keeps the fault log valid. */
  lemma OptimalLogStep(s: OptimalState, pages: seq<int>, i: nat, frames: nat)
    requires OptimalReady(s, frames) && i < |pages|
    requires FaultLogValid(s.faults, pages, frames, i)
    ensures FaultLogValid(OptimalStep(s, pages, i, frames).faults, pages, frames, i + 1)
  {
    if pages[i] !in s.frameList && |s.frameList| == frames {
      LogStep(s.faults, pages, frames, i, Farthest(FutureUse(pages, i, s.frameList)));
    } else {
      LogStep(s.faults, pages, frames, i, 0);
    }
  }

  /** Optimal snapshot `k` is the frame list right after step `k`. */
  lemma {:induction false} OptimalHistory(pages: seq<int>, frames: nat, n: nat, k: nat)
    requires frames >= 1 && k < n <= |pages|
    ensures OptimalAfter(pages, frames, n).history[k] == OptimalAfter(pages, frames, k + 1).frameList
  {
    if k < n - 1 {
      OptimalHistory(pages, frames, n - 1, k);
    }
  }

  /** Every Optimal snapshot is duplicate-free, holds the page just
      referenced and has `min(frames, misses so far)` entries. */
  lemma OptimalSnapshot(pages: seq<int>, frames: nat, k: nat)
    requires frames >= 1 && k < |pages|
    ensures var h := OptimalAfter(pages, frames, |pages|).history[k];
      NoDups(h) && pages[k] in h && |h| <= frames &&
      |h| == Min(frames, OptimalAfter(pages, frames, k + 1).misses)
  {
    OptimalHistory(pages, frames, |pages|, k);
    OptimalCounts(pages, frames, k + 1);
    OptimalDistinct(pages, frames, k + 1);
  }
}
