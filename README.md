# Page-replacement engines, modelled in Dafny

The simulator runs a reference string of integer page ids through a fixed
number of memory frames, using one of three policies:

- FIFO evicts the page that arrived earliest.
- LRU evicts the page that was referenced least recently.
- Optimal (Belady) evicts the page whose next reference lies farthest in the future.

Every engine walks the reference string once. For each reference it records a
hit or a miss and appends a snapshot of the frame list to `history`.

The repository holds two implementations of the three engines:

- `OS_PAGE_REPLACEMENT_SIM.py` (module `OsSim`):
  - FIFO overwrites the slot under a rotating cursor `fifo_index`.
  - LRU keeps a dictionary `indexes` from resident page to the step it was last used.
  - Optimal ranks residents by the absolute step of their next use.
  - Every eviction is logged in `fault_positions` as `(step, page, slot)`.
- `Page_replacement_sim_upd2.py` (module `QueueSim`):
  - FIFO pops the front of the frame list and appends.
  - LRU keeps a recency list `page_order`.
  - Optimal ranks residents by their next use relative to the current step.
  - Lines 7-70 of `update_page_replacement_sim.py` are the same text, so `QueueSim` models that file as well.

Each engine is modelled in three layers:

1. A state datatype and a `Step` function. `Step` is the specification of one
   loop iteration. `After(pages, frames, n)` is the state after the first `n`
   references.
2. A method with the engine's Python name. Its loop mirrors the Python loop
   statement by statement. The loop invariant says the variables equal
   `After(pages, frames, i)`, so the method is proved to return the
   specification's history, counts and fault log.
3. Lemmas about `After`. They state what the engine promises:
   - counts that add up;
   - snapshots of length `min(frames, misses so far)`;
   - no duplicate residents;
   - the page just referenced is resident;
   - a hit leaves the frame list alone;
   - an eviction changes exactly one slot in the slot-overwriting engines (both LRU and Optimal engines, and the cursor FIFO), while the queue FIFO drops its front and appends;
   - the queue FIFO stays in arrival order, so both FIFO engines evict the earliest arrival;
   - the victim rule of each policy;
   - a valid fault log;
   - the FIFO cursor's round-robin order.

Shared list facts live in `PageLists`: first index, last reference, next use,
Python's first-maximal `max`, and the Belady victim predicate.

`Agreement` relates the two implementations:

- The LRU engines produce identical snapshots and counts at every step.
- The Optimal engines produce identical snapshots and counts at every step.
- The FIFO engines have the same counts at every step and the same multiset of
  residents in every snapshot. The queue is the cursor's frame list read from
  the cursor onwards.

Tie-breaking follows the code:

- LRU last-use steps are distinct, so its victim is unique.
- Optimal's `max` over a dictionary built in `frame_list` order returns the
  first maximal entry. Among residents that never recur, it therefore picks the
  one in the lowest slot, not the lowest page id.
- Ties are never broken by page id; the slot order above decides them.

## Model

| member | source | states |
|---|---|---|
| PageLists.IndexOf | OS_PAGE_REPLACEMENT_SIM.py:52 | `list.index`: when `x` occurs, the result is a position holding `x` |
| PageLists.IndexOfFirst | OS_PAGE_REPLACEMENT_SIM.py:89 | `list.index` returns the first occurrence: no earlier position holds `x` |
| PageLists.IndexOfSlot | OS_PAGE_REPLACEMENT_SIM.py:89 | in a duplicate-free frame list, looking up the page in slot `j` gives back `j` |
| PageLists.RemoveFirst | Page_replacement_sim_upd2.py:35 | `list.remove(x)` on a list holding `x` is one entry shorter |
| PageLists.RemoveFirstOrder | Page_replacement_sim_upd2.py:35 | `remove(x)` keeps the entries before the first `x` in place and moves those after it one place forward |
| PageLists.RemoveFirstContents | Page_replacement_sim_upd2.py:35 | `remove(x)` takes away exactly one `x`: the old multiset is the new one plus `x` |
| PageLists.MoveToBack | Page_replacement_sim_upd2.py:35-44 | `remove(page)` then `append(page)` keeps the length, the set of pages and the absence of duplicates |
| PageLists.RemoveFirstKeeps | Page_replacement_sim_upd2.py:35 | `remove(x)` keeps every other page |
| PageLists.SubsetLength | Page_replacement_sim_upd2.py:41 | a duplicate-free list contained in another is no longer than it, and strictly shorter if it misses one of its pages |
| PageLists.LastRef | OS_PAGE_REPLACEMENT_SIM.py:44 | the last step at which a page was referenced, or -1: a valid position holding that page |
| PageLists.LastRefIsLast | OS_PAGE_REPLACEMENT_SIM.py:44 | no later step references the page |
| PageLists.LastRefSnoc | OS_PAGE_REPLACEMENT_SIM.py:57 | one more reference moves that page's last use to the new step and no other page's |
| PageLists.LastRefDistinct | OS_PAGE_REPLACEMENT_SIM.py:51 | two different pages, one of them referenced, never share a last-use step |
| PageLists.NextUseAfter | Page_replacement_sim_upd2.py:64 | the next-use entry is "never" exactly when the page is absent from `pages[i+1:]`, otherwise an offset into it holding the page |
| PageLists.NextUseIsNext | Page_replacement_sim_upd2.py:64 | no reference between step `i` and that offset is to the page (it is the first occurrence) |
| PageLists.Farthest | OS_PAGE_REPLACEMENT_SIM.py:88 | `max(future_use, key=future_use.get)` yields a valid slot |
| PageLists.FarthestIsFirstMax | OS_PAGE_REPLACEMENT_SIM.py:88 | the chosen slot is strictly later than every earlier slot and no later slot beats it: the first maximal entry |
| PageLists.FarthestShift | Page_replacement_sim_upd2.py:64-65 | adding the same offset to every next use (relative vs absolute indices) does not change the chosen slot |
| PageLists.FarthestIsBelady | OS_PAGE_REPLACEMENT_SIM.py:81-88 | if some entry is "never", the choice is the first such slot; otherwise it is a slot with the largest next use |
| PageLists.FarthestIsBeladyVictim | OS_PAGE_REPLACEMENT_SIM.py:81-89 | the chosen resident is the first one absent from the remaining references, or, if all recur, one no other resident's next use comes after |
| PageLists.ReplaceSlot | OS_PAGE_REPLACEMENT_SIM.py:92 | overwriting one slot with a non-resident page keeps the list duplicate-free and swaps exactly the old page for the new one |
| PageLists.ModWrap | OS_PAGE_REPLACEMENT_SIM.py:26 | `(c + 1) % frames` for a cursor below `frames` wraps to 0 exactly at the end |
| PageLists.ModNext | OS_PAGE_REPLACEMENT_SIM.py:26 | advancing a reduced cursor agrees with reducing the advanced count |
| OsSim.LogStep | OS_PAGE_REPLACEMENT_SIM.py:25 | a valid fault log stays valid for one more step, with or without a new `(i, pages[i], slot)` entry |
| OsSim.FifoStep | OS_PAGE_REPLACEMENT_SIM.py:15-28 | one iteration keeps the frame list within `frames` and the cursor within it, makes the page resident, adds one snapshot and one hit or miss |
| OsSim.FifoAfter | OS_PAGE_REPLACEMENT_SIM.py:15-28 | after `n` references there are `n` snapshots and `hits + misses == n` |
| OsSim.FifoPageReplacement | OS_PAGE_REPLACEMENT_SIM.py:8-30 | returns the specification's history, counts and fault log; `len(history) == len(pages) == hits + misses` |
| OsSim.FifoCounts | OS_PAGE_REPLACEMENT_SIM.py:19-26 | the frame list holds `min(frames, misses)` pages, every further miss is one logged eviction, and the cursor is `evictions % frames` |
| OsSim.FifoCountStep | OS_PAGE_REPLACEMENT_SIM.py:16-26 | one iteration preserves that accounting |
| OsSim.FifoCursorAtStart | OS_PAGE_REPLACEMENT_SIM.py:13 | while the frame list is not full, the cursor is still at 0 |
| OsSim.FifoStepEffect | OS_PAGE_REPLACEMENT_SIM.py:16-26 | a hit changes neither frames, cursor nor log; a cold miss appends; an eviction writes the page into the cursor's slot only, logs `(k, page, cursor)` and advances the cursor modulo `frames` |
| OsSim.FifoFaultLog | OS_PAGE_REPLACEMENT_SIM.py:25 | each log entry has a step already taken, that step's page and a slot below `frames`, with steps strictly increasing |
| OsSim.FifoLogStep | OS_PAGE_REPLACEMENT_SIM.py:22-25 | one iteration keeps the log valid |
| OsSim.FifoRoundRobin | OS_PAGE_REPLACEMENT_SIM.py:23-26 | the k-th logged eviction overwrote slot `k mod frames` |
| OsSim.FifoTurnStep | OS_PAGE_REPLACEMENT_SIM.py:23-26 | one iteration keeps evictions in round-robin slot order |
| OsSim.FifoDistinct | OS_PAGE_REPLACEMENT_SIM.py:16-24 | no page ever occupies two slots |
| OsSim.FifoHistory | OS_PAGE_REPLACEMENT_SIM.py:28 | snapshot `k` is the frame list right after step `k` |
| OsSim.FifoSnapshot | OS_PAGE_REPLACEMENT_SIM.py:15-28 | every snapshot is duplicate-free, holds `pages[k]` and has `min(frames, misses so far)` entries |
| OsSim.LeastRecentSlot | OS_PAGE_REPLACEMENT_SIM.py:51-52 | the slot of the resident with the smallest last use is a valid slot |
| OsSim.LeastRecentSlotIsMin | OS_PAGE_REPLACEMENT_SIM.py:51 | no resident was last used before the one in that slot |
| OsSim.LruStep | OS_PAGE_REPLACEMENT_SIM.py:41-59 | one iteration keeps the frame list within `frames`, makes the page resident, adds one snapshot and one hit or miss |
| OsSim.LruAfter | OS_PAGE_REPLACEMENT_SIM.py:41-59 | after `n` references there are `n` snapshots and `hits + misses == n` |
| OsSim.LeastRecentlyUsed | OS_PAGE_REPLACEMENT_SIM.py:51 | `min(indexes, key=indexes.get)`, scanning the keys in any order, returns a key whose value no other key undercuts |
| OsSim.LruPageReplacement | OS_PAGE_REPLACEMENT_SIM.py:33-61 | returns the specification's history, counts and fault log; `len(history) == len(pages) == hits + misses` |
| OsSim.LruCounts | OS_PAGE_REPLACEMENT_SIM.py:45-54 | the frame list holds `min(frames, misses)` pages and every further miss is one logged eviction |
| OsSim.LruCountStep | OS_PAGE_REPLACEMENT_SIM.py:45-54 | one iteration preserves that accounting |
| OsSim.LruDistinct | OS_PAGE_REPLACEMENT_SIM.py:42-53 | no page ever occupies two slots |
| OsSim.LruKeys | OS_PAGE_REPLACEMENT_SIM.py:44-57 | the keys of `indexes` are exactly the resident pages |
| OsSim.LruIndexes | OS_PAGE_REPLACEMENT_SIM.py:44-57 | keys are the residents, `indexes[p]` is the last step that referenced `p`, and no two keys share a value |
| OsSim.LruLastRefStep | OS_PAGE_REPLACEMENT_SIM.py:44-57 | one iteration keeps every `indexes[p]` equal to `p`'s last reference |
| OsSim.LeastRecentIsUnique | OS_PAGE_REPLACEMENT_SIM.py:51-52 | whichever minimal key the dictionary scan returns, it is resident and `frame_list.index` finds it in the least-recent slot |
| OsSim.LruStepEffect | OS_PAGE_REPLACEMENT_SIM.py:42-57 | a hit keeps frames and log and records step `k`; a cold miss appends; an eviction logs `(k, page, slot)` and overwrites that slot only, and its old page was used strictly before every other resident |
| OsSim.LruFaultLog | OS_PAGE_REPLACEMENT_SIM.py:54 | the LRU fault log is valid |
| OsSim.LruLogStep | OS_PAGE_REPLACEMENT_SIM.py:52-54 | one iteration keeps the log valid |
| OsSim.LruHistory | OS_PAGE_REPLACEMENT_SIM.py:59 | snapshot `k` is the frame list right after step `k` |
| OsSim.LruSnapshot | OS_PAGE_REPLACEMENT_SIM.py:41-59 | every snapshot is duplicate-free, holds `pages[k]` and has `min(frames, misses so far)` entries |
| OsSim.FutureUse | OS_PAGE_REPLACEMENT_SIM.py:81-85 | one absolute next-use entry per resident, in slot order |
| OsSim.OptimalStep | OS_PAGE_REPLACEMENT_SIM.py:71-95 | one iteration keeps the frame list within `frames`, makes the page resident, adds one snapshot and one hit or miss |
| OsSim.OptimalAfter | OS_PAGE_REPLACEMENT_SIM.py:71-95 | after `n` references there are `n` snapshots and `hits + misses == n` |
| OsSim.NextUses | OS_PAGE_REPLACEMENT_SIM.py:81-85 | the `future_use` loop gives each resident "never" or `pages[i+1:].index(frame) + i + 1`, as the next-use specification says |
| OsSim.OptimalPageReplacement | OS_PAGE_REPLACEMENT_SIM.py:65-97 | returns the specification's history, counts and fault log; `len(history) == len(pages) == hits + misses` |
| OsSim.OptimalCounts | OS_PAGE_REPLACEMENT_SIM.py:74-93 | the frame list holds `min(frames, misses)` pages and every further miss is one logged eviction |
| OsSim.OptimalCountStep | OS_PAGE_REPLACEMENT_SIM.py:74-93 | one iteration preserves that accounting |
| OsSim.OptimalDistinct | OS_PAGE_REPLACEMENT_SIM.py:72-92 | no page ever occupies two slots |
| OsSim.OptimalStepEffect | OS_PAGE_REPLACEMENT_SIM.py:81-93 | a hit keeps frames and log; a cold miss appends; an eviction logs `(k, page, slot)`, overwrites that slot only, and the slot satisfies Belady's victim rule on `pages[k+1:]` |
| OsSim.OptimalFaultLog | OS_PAGE_REPLACEMENT_SIM.py:93 | the Optimal fault log is valid |
| OsSim.OptimalLogStep | OS_PAGE_REPLACEMENT_SIM.py:89-93 | one iteration keeps the log valid |
| OsSim.OptimalHistory | OS_PAGE_REPLACEMENT_SIM.py:95 | snapshot `k` is the frame list right after step `k` |
| OsSim.OptimalSnapshot | OS_PAGE_REPLACEMENT_SIM.py:71-95 | every snapshot is duplicate-free, holds `pages[k]` and has `min(frames, misses so far)` entries |
| QueueSim.FifoStep | Page_replacement_sim_upd2.py:13-22 | one iteration keeps the frame list within `frames`, makes the page resident, adds one snapshot and one hit or miss |
| QueueSim.FifoAfter | Page_replacement_sim_upd2.py:12-22 | after `n` references there are `n` snapshots and `hits + misses == n` |
| QueueSim.FifoPageReplacement | Page_replacement_sim_upd2.py:7-24 | returns the specification's history and counts; `len(history) == len(pages) == hits + misses` (the same lines of update_page_replacement_sim.py are identical) |
| QueueSim.FifoCounts | Page_replacement_sim_upd2.py:16-21 | the frame list holds `min(frames, misses)` pages |
| QueueSim.FifoStepEffect | Page_replacement_sim_upd2.py:13-21 | a hit keeps the frame list; a cold miss appends; an eviction drops the front page, which arrived strictly before every other resident, keeps the survivors in order and puts the new page last |
| QueueSim.Arrival | Page_replacement_sim_upd2.py:15-21 | the step at which a page last came in: a step that referenced it while it was not resident, or -1 |
| QueueSim.ArrivalKept | Page_replacement_sim_upd2.py:13-14 | a step that does not bring a page in leaves its arrival unchanged |
| QueueSim.ArrivalAppend | Page_replacement_sim_upd2.py:18-21 | residents kept in arrival order, followed by the page that misses now, are in arrival order |
| QueueSim.FifoArrivalStep | Page_replacement_sim_upd2.py:13-21 | one iteration keeps every queued page arrived and the queue ordered by arrival |
| QueueSim.FifoArrivalOrder | Page_replacement_sim_upd2.py:12-22 | after every prefix the queue runs from the earliest arrival at the front to the latest at the back |
| QueueSim.FifoDistinct | Page_replacement_sim_upd2.py:13-21 | no page is ever queued twice |
| QueueSim.FifoHistory | Page_replacement_sim_upd2.py:22 | snapshot `k` is the frame list right after step `k` |
| QueueSim.FifoSnapshot | Page_replacement_sim_upd2.py:12-22 | every snapshot is duplicate-free, holds `pages[k]` and has `min(frames, misses so far)` entries |
| QueueSim.InOrder | Page_replacement_sim_upd2.py:33-35 | every resident appears in `page_order` |
| QueueSim.EvictFront | Page_replacement_sim_upd2.py:41-44 | popping the front of `page_order`, overwriting its slot and appending the new page keeps `page_order` and the frame list holding the same pages |
| QueueSim.LruStep | Page_replacement_sim_upd2.py:32-45 | one iteration keeps `page_order` a duplicate-free arrangement of the residents within `frames`, makes the page resident, adds one snapshot and one hit or miss |
| QueueSim.LruAfter | Page_replacement_sim_upd2.py:32-45 | after `n` references there are `n` snapshots and `hits + misses == n` |
| QueueSim.LruPageReplacement | Page_replacement_sim_upd2.py:26-47 | returns the specification's history and counts; `len(history) == len(pages) == hits + misses` (the same lines of update_page_replacement_sim.py are identical) |
| QueueSim.LruCounts | Page_replacement_sim_upd2.py:37-42 | the frame list holds `min(frames, misses)` pages |
| QueueSim.RecencyAppend | Page_replacement_sim_upd2.py:44 | appending the page just referenced keeps `page_order` ordered by last use |
| QueueSim.RecencyDrop | Page_replacement_sim_upd2.py:35 | removing one entry keeps the rest ordered by last use |
| QueueSim.RecencyHit | Page_replacement_sim_upd2.py:35-44 | on a hit, `remove` then `append` keeps `page_order` ordered by last use |
| QueueSim.RecencyEvict | Page_replacement_sim_upd2.py:41-44 | on an eviction, `pop(0)` then `append` keeps `page_order` ordered by last use |
| QueueSim.LruDistinct | Page_replacement_sim_upd2.py:33-42 | no page ever occupies two slots |
| QueueSim.LruRecencyStep | Page_replacement_sim_upd2.py:33-44 | one iteration keeps `page_order` ordered by last use and ends it with the current page |
| QueueSim.LruRecency | Page_replacement_sim_upd2.py:30-45 | `page_order` runs from least to most recently used, and after each step its last element is the current page |
| QueueSim.FrontIsLeastRecent | Page_replacement_sim_upd2.py:41-42 | the front of `page_order` was referenced strictly before every other resident |
| QueueSim.LruStepEffect | Page_replacement_sim_upd2.py:33-44 | a hit keeps the frame list and moves the page to the back of `page_order`; a cold miss appends to both; an eviction overwrites exactly the slot of `page_order[0]`, the least recently used resident |
| QueueSim.LruStepHistory | Page_replacement_sim_upd2.py:45 | one iteration appends its new frame list to the snapshots |
| QueueSim.LruHistory | Page_replacement_sim_upd2.py:45 | snapshot `k` is the frame list right after step `k` |
| QueueSim.LruSnapshot | Page_replacement_sim_upd2.py:32-45 | every snapshot is duplicate-free, holds `pages[k]` and has `min(frames, misses so far)` entries |
| QueueSim.FutureUse | Page_replacement_sim_upd2.py:64 | one relative next-use entry per resident, in slot order |
| QueueSim.OptimalStep | Page_replacement_sim_upd2.py:54-68 | one iteration keeps the frame list within `frames`, makes the page resident, adds one snapshot and one hit or miss |
| QueueSim.OptimalAfter | Page_replacement_sim_upd2.py:54-68 | after `n` references there are `n` snapshots and `hits + misses == n` |
| QueueSim.OptimalPageReplacement | Page_replacement_sim_upd2.py:49-70 | returns the specification's history and counts; `len(history) == len(pages) == hits + misses` (the same lines of update_page_replacement_sim.py are identical) |
| QueueSim.OptimalCounts | Page_replacement_sim_upd2.py:60-66 | the frame list holds `min(frames, misses)` pages |
| QueueSim.OptimalDistinct | Page_replacement_sim_upd2.py:57-66 | no page ever occupies two slots |
| QueueSim.OptimalStepEffect | Page_replacement_sim_upd2.py:64-66 | a hit keeps the frame list; a cold miss appends; an eviction overwrites one slot only, and that slot satisfies Belady's victim rule on `pages[k+1:]` |
| QueueSim.OptimalHistory | Page_replacement_sim_upd2.py:68 | snapshot `k` is the frame list right after step `k` |
| QueueSim.OptimalSnapshot | Page_replacement_sim_upd2.py:54-68 | every snapshot is duplicate-free, holds `pages[k]` and has `min(frames, misses so far)` entries |
| Agreement.LruAgreeStep | OS_PAGE_REPLACEMENT_SIM.py:51-53 | the dictionary minimum and the recency-list front pick the same slot, so agreement survives one step |
| Agreement.LruSame | OS_PAGE_REPLACEMENT_SIM.py:33-61 | both LRU engines (also Page_replacement_sim_upd2.py:26-47) have the same frame list, snapshots and counts after every prefix |
| Agreement.OptimalAgreeStep | OS_PAGE_REPLACEMENT_SIM.py:81-89 | absolute and relative next uses pick the same slot, so agreement survives one step |
| Agreement.OptimalSame | OS_PAGE_REPLACEMENT_SIM.py:65-97 | both Optimal engines (also Page_replacement_sim_upd2.py:49-70) have the same frame list, snapshots and counts after every prefix |
| Agreement.RotateSamePages | OS_PAGE_REPLACEMENT_SIM.py:23-24 | reading the frame list from the cursor onwards keeps every page with its multiplicity and puts the cursor's page first |
| Agreement.RotateEvict | OS_PAGE_REPLACEMENT_SIM.py:23-26 | overwriting the cursor's slot and advancing the cursor equals popping the queue's front and appending |
| Agreement.FifoAgreeStep | OS_PAGE_REPLACEMENT_SIM.py:16-26 | one step keeps the queue equal to the rotated cursor frame list and the counts equal |
| Agreement.FifoSame | OS_PAGE_REPLACEMENT_SIM.py:8-30 | after every prefix the queue (Page_replacement_sim_upd2.py:7-24) is the cursor frame list read from the cursor, with the same counts |
| Agreement.FifoSameResidents | OS_PAGE_REPLACEMENT_SIM.py:16 | after every prefix both FIFO engines (also Page_replacement_sim_upd2.py:13) hold the same pages, so they miss on the same references |
| Agreement.FifoSameSnapshot | OS_PAGE_REPLACEMENT_SIM.py:23-28 | both FIFO snapshots hold the same multiset of pages, and a full frame list has the queue's front under the cursor |
| Agreement.RotateBehindFront | OS_PAGE_REPLACEMENT_SIM.py:23 | every page other than the one under the cursor sits behind the front of the rotated list |
| Agreement.FifoCursorHoldsEarliest | OS_PAGE_REPLACEMENT_SIM.py:23-24 | once the frames are full, the cursor's slot holds the resident that arrived strictly before every other one, so the next eviction overwrites the earliest arrival |

## Left out

- The tkinter form, `run_simulation` and its input parsing and message boxes are not modelled. The only thing kept from them is the caller's check `frames >= 1` (OS_PAGE_REPLACEMENT_SIM.py:202, Page_replacement_sim_upd2.py:106), which every engine requires. With zero frames every engine fails on its first miss: the cursor FIFO assigns `frame_list[0]` on an empty list, the queue FIFO and the queue LRU call `pop(0)` on an empty list, and the dictionary LRU and both Optimal engines call `min` or `max` on an empty dictionary.
- The matplotlib and numpy plots, `display_table` and the hit/miss ratios are left out. They are presentation only, and the ratios are floating-point divisions.
- `float('inf')` in `future_use` is the `Never` case of `NextUse`. It compares above every step index, as infinity does.
- The `future_use` dictionary is a sequence aligned with the frame slots. The dictionary is built in `frame_list` order and its keys are distinct, so its iteration order is slot order.
- OsSim.LeastRecentlyUsed scans `indexes` in an arbitrary order rather than Python's insertion order. Its values are distinct step numbers (OsSim.LruIndexes), so every order returns the same key.
- Engine results are specified up to the frame list, history, counts, fault log, FIFO cursor, LRU `indexes` and `page_order`. The Python lists are copied into `history` with `.copy()`, and the model's sequences are values, so aliasing does not arise.
- Belady's theorem that Optimal minimises the number of faults is not proved; only the victim rule of each step is.
- Changes in fault counts across different frame counts (Belady's anomaly) are not modelled; the code makes no claim about them.
- Tie-breaking follows the code: the first maximal entry in slot order for Optimal, and the unique minimum for LRU. A "lowest page id" rule is not modelled.
- No concrete reference strings are evaluated. For `[1,2,3,4,1,2,5]` with 3 frames the engines give:
  - FIFO with the cursor: 7 misses, final frames `[5,1,2]`;
  - FIFO with the queue: 7 misses, final frames `[1,2,5]`;
  - LRU: 7 misses, final frames `[5,1,2]`;
  - Optimal: 5 misses and 2 hits, final frames `[5,2,4]`.

  These are consequences of the general lemmas but are not stated as separate lemmas.
