/** The two implementations side by side. The recency-list LRU and the
    dict LRU evict the same page, and the relative and absolute Optimal
    indices pick the same victim, so these engines agree step for step.
    The two FIFO engines agree on the resident pages and on the counts; the
    queue is the rotating-cursor frame list read from the cursor onwards. */
module Agreement {
  import opened PageLists
  import OsSim
  import QueueSim

  // ------------------------------------------------------------------- LRU

  /** Same frame list, same snapshots, same counts. */
  predicate LruAgree(o: OsSim.LruState, q: QueueSim.LruState)
  {
    o.frameList == q.frameList && o.history == q.history && o.hits == q.hits && o.misses == q.misses
  }

  /** If both LRU engines agree before step `k`, they agree after it: both
      evict the resident that was referenced least recently, and that
      resident is unique. */
  lemma LruAgreeStep(pages: seq<int>, frames: nat, k: nat)
    requires frames >= 1 && k < |pages|
    requires LruAgree(OsSim.LruAfter(pages, frames, k), QueueSim.LruAfter(pages, frames, k))
    ensures LruAgree(OsSim.LruAfter(pages, frames, k + 1), QueueSim.LruAfter(pages, frames, k + 1))
  {
    var o, q := OsSim.LruAfter(pages, frames, k), QueueSim.LruAfter(pages, frames, k);
    var o', q' := OsSim.LruAfter(pages, frames, k + 1), QueueSim.LruAfter(pages, frames, k + 1);
    if pages[k] !in o.frameList && |o.frameList| == frames {
      OsSim.LruStepEffect(pages, frames, k);
      QueueSim.LruStepEffect(pages, frames, k);
    }
  }

  /** The two LRU engines produce the same snapshots and counts after every
      prefix of the reference string. */
  lemma {:induction false} LruSame(pages: seq<int>, frames: nat, n: nat)
    requires frames >= 1 && n <= |pages|
    ensures LruAgree(OsSim.LruAfter(pages, frames, n), QueueSim.LruAfter(pages, frames, n))
  {
    if n > 0 {
      LruSame(pages, frames, n - 1);
      LruAgreeStep(pages, frames, n - 1);
    }
  }

  // --------------------------------------------------------------- Optimal

  /** Same frame list, same snapshots, same counts. */
  predicate OptimalAgree(o: OsSim.OptimalState, q: QueueSim.OptimalState)
  {
    o.frameList == q.frameList && o.history == q.history && o.hits == q.hits && o.misses == q.misses
  }

  /** If both Optimal engines agree before step `i`, they agree after it:
      shifting every next use by `i + 1` does not change which is farthest. */
  lemma OptimalAgreeStep(o: OsSim.OptimalState, q: QueueSim.OptimalState, pages: seq<int>, i: nat, frames: nat)
    requires OsSim.OptimalReady(o, frames) && QueueSim.OptimalReady(q, frames) && i < |pages|
    requires OptimalAgree(o, q)
    ensures OptimalAgree(OsSim.OptimalStep(o, pages, i, frames), QueueSim.OptimalStep(q, pages, i, frames))
  {
    if pages[i] !in o.frameList && |o.frameList| == frames {
      FarthestShift(QueueSim.FutureUse(pages, i, q.frameList), OsSim.FutureUse(pages, i, o.frameList), i + 1);
    }
  }

  /** The two Optimal engines produce the same snapshots and counts after
      every prefix of the reference string. */
  lemma {:induction false} OptimalSame(pages: seq<int>, frames: nat, n: nat)
    requires frames >= 1 && n <= |pages|
    ensures OptimalAgree(OsSim.OptimalAfter(pages, frames, n), QueueSim.OptimalAfter(pages, frames, n))
  {
    if n > 0 {
      OptimalSame(pages, frames, n - 1);
      OptimalAgreeStep(OsSim.OptimalAfter(pages, frames, n - 1), QueueSim.OptimalAfter(pages, frames, n - 1),
                       pages, n - 1, frames);
    }
  }

  // ------------------------------------------------------------------ FIFO

  /** `s` read from position `c` onwards, wrapping round to the start. */
  function Rotate(s: seq<int>, c: nat): seq<int>
    requires c <= |s|
  {
    s[c..] + s[..c]
  }

  /** A rotation holds the same pages, each as often, and puts `s[c]` first. */
  lemma RotateSamePages(s: seq<int>, c: nat)
    requires c <= |s|
    ensures multiset(Rotate(s, c)) == multiset(s)
    ensures forall x :: x in Rotate(s, c) <==> x in s
    ensures c < |s| ==> Rotate(s, c)[0] == s[c]
  {
    assert s == s[..c] + s[c..];
    assert multiset(s) == multiset(s[..c]) + multiset(s[c..]);
    assert forall x :: x in Rotate(s, c) <==> x in multiset(Rotate(s, c));
    assert forall x :: x in s <==> x in multiset(s);
  }

  /** The queue is the cursor's frame list read from the cursor onwards, and
      the counts are the same. */
  predicate FifoAgree(o: OsSim.FifoState, q: QueueSim.FifoState)
  {
    o.fifoIndex <= |o.frameList| && q.frameList == Rotate(o.frameList, o.fifoIndex) &&
    o.hits == q.hits && o.misses == q.misses
  }

  /** An eviction in both engines: overwriting the slot under the cursor and
      moving the cursor on is popping the front of the queue and appending. */
  lemma RotateEvict(s: seq<int>, c: nat, page: int)
    requires c < |s|
    ensures Rotate(s, c)[1..] + [page] == Rotate(s[c := page], if c + 1 == |s| then 0 else c + 1)
  {
    var r := s[c := page];
    if c + 1 == |s| {
      assert Rotate(s, c)[1..] == s[..c];
      assert r == s[..c] + [page];
    } else {
      assert Rotate(s, c)[1..] == s[c + 1..] + s[..c];
      assert r[c + 1..] == s[c + 1..] && r[..c + 1] == s[..c] + [page];
    }
  }

  /** If the FIFO engines agree before step `i`, they agree after it. */
  lemma FifoAgreeStep(o: OsSim.FifoState, q: QueueSim.FifoState, i: nat, page: int, frames: nat)
    requires OsSim.FifoReady(o, frames) && QueueSim.FifoReady(q, frames)
    requires (o.fifoIndex == 0 || |o.frameList| == frames) && FifoAgree(o, q)
    ensures FifoAgree(OsSim.FifoStep(o, i, page, frames), QueueSim.FifoStep(q, page, frames))
  {
    RotateSamePages(o.frameList, o.fifoIndex);
    if page !in o.frameList && |o.frameList| == frames {
      ModWrap(o.fifoIndex, frames);
      RotateEvict(o.frameList, o.fifoIndex, page);
    }
  }

  /** After every prefix of the reference string the two FIFO engines have
      the same counts, and the queue is the cursor's frame list read from
      the cursor onwards. `FifoSameResidents` and `FifoSameSnapshot` draw the
      consequences for the resident pages, and `FifoCursorHoldsEarliest`
      shows that the slot under the cursor holds the earliest arrival. */
  lemma {:induction false} FifoSame(pages: seq<int>, frames: nat, n: nat)
    requires frames >= 1 && n <= |pages|
    ensures FifoAgree(OsSim.FifoAfter(pages, frames, n), QueueSim.FifoAfter(pages, frames, n))
  {
    if n > 0 {
      FifoSame(pages, frames, n - 1);
      OsSim.FifoCursorAtStart(pages, frames, n - 1);
      FifoAgreeStep(OsSim.FifoAfter(pages, frames, n - 1), QueueSim.FifoAfter(pages, frames, n - 1),
                    n - 1, pages[n - 1], frames);
    }
  }

  /** After every prefix the two FIFO engines hold the same pages, so a
      reference misses in one exactly when it misses in the other, and
      `QueueSim.Arrival` is also the step at which a page came into the
      cursor engine's frames. */
  lemma FifoSameResidents(pages: seq<int>, frames: nat, n: nat)
    requires frames >= 1 && n <= |pages|
    ensures forall p :: p in OsSim.FifoAfter(pages, frames, n).frameList <==> p in QueueSim.FifoAfter(pages, frames, n).frameList
  {
    FifoSame(pages, frames, n);
    var o := OsSim.FifoAfter(pages, frames, n);
    RotateSamePages(o.frameList, o.fifoIndex);
  }

  /** Snapshot `k` of the two FIFO engines holds the same pages, and a full
      frame list has the queue's front under the cursor. */
  lemma FifoSameSnapshot(pages: seq<int>, frames: nat, k: nat)
    requires frames >= 1 && k < |pages|
    ensures multiset(OsSim.FifoAfter(pages, frames, |pages|).history[k])
         == multiset(QueueSim.FifoAfter(pages, frames, |pages|).history[k])
    ensures var o, q := OsSim.FifoAfter(pages, frames, k + 1), QueueSim.FifoAfter(pages, frames, k + 1);
      |o.frameList| == frames ==> o.frameList[o.fifoIndex] == q.frameList[0]
  {
    OsSim.FifoHistory(pages, frames, |pages|, k);
    QueueSim.FifoHistory(pages, frames, |pages|, k);
    FifoSame(pages, frames, k + 1);
    var o := OsSim.FifoAfter(pages, frames, k + 1);
    RotateSamePages(o.frameList, o.fifoIndex);
  }

  /** Every resident other than `s[c]` sits behind the front of the
      rotation. */
  lemma RotateBehindFront(s: seq<int>, c: nat, p: int)
    requires c < |s| && p in s && p != s[c]
    ensures exists b :: 0 < b < |Rotate(s, c)| && Rotate(s, c)[b] == p
  {
    RotateSamePages(s, c);
    var b :| 0 <= b < |Rotate(s, c)| && Rotate(s, c)[b] == p;
  }

  /** Once the frames are full, the slot under the FIFO cursor holds the
      resident that arrived before every other one, so the next eviction
      (OS_PAGE_REPLACEMENT_SIM.py:23-24) overwrites the earliest arrival.
      Arrivals are the steps that missed on a page, and both engines miss on
      the same steps (`FifoSameResidents`). */
  lemma FifoCursorHoldsEarliest(pages: seq<int>, frames: nat, n: nat)
    requires frames >= 1 && n <= |pages|
    ensures var o := OsSim.FifoAfter(pages, frames, n);
      |o.frameList| == frames ==>
        forall p :: p in o.frameList && p != o.frameList[o.fifoIndex] ==>
          QueueSim.Arrival(pages, frames, n, o.frameList[o.fifoIndex]) < QueueSim.Arrival(pages, frames, n, p)
  {
    var o, q := OsSim.FifoAfter(pages, frames, n), QueueSim.FifoAfter(pages, frames, n);
    if |o.frameList| == frames {
      FifoSame(pages, frames, n);
      QueueSim.FifoArrivalOrder(pages, frames, n);
      RotateSamePages(o.frameList, o.fifoIndex);
      forall p | p in o.frameList && p != o.frameList[o.fifoIndex]
        ensures QueueSim.Arrival(pages, frames, n, o.frameList[o.fifoIndex]) < QueueSim.Arrival(pages, frames, n, p)
      {
        RotateBehindFront(o.frameList, o.fifoIndex, p);
      }
    }
  }
}
