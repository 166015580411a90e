# Page-replacement simulator, modelled in Dafny

`main.py` defines `MemorySimulator`. It replays a trace of memory references
(`<hex address> <R|W>` per line) against a fixed number of physical frames
under one of three replacement policies:

- FIFO evicts the page loaded longest ago.
- LRU evicts the page touched least recently.
- OPT evicts the page whose next use lies furthest ahead (Belady's rule).

It counts accesses, hits, page faults, replacements, disk writes (evictions of
dirty frames), reads and writes. It also reports the 20 most accessed pages.

The model has seven modules, one per file:

- `Trace` (`trace.dfy`) covers the page-number and frequency-counting steps
  of `load_trace_file`. It also covers the `top_pages` ranking of
  `get_stats`: a stable sort by descending count, cut to 20 entries.
- `OptIndex` (`opt_index.dfy`) covers OPT's lookahead. It holds the per-page
  lists of future positions built by `_preprocess_opt_references`, the
  `next_ref` cursor moved by `_update_opt_next_ref`, and the victim scan of
  `_select_victim_frame`. Each heap is an ascending sequence whose head is
  its smallest element.
- `Engine` (`engine.dfy`) is the simulator's state as a value, with one
  function per operation. It defines the invariant every access preserves:
  - the page table and the frame table are inverse bijections onto frames
    `0 .. n-1`;
  - at most `frame_count` pages are resident;
  - the dirty set is exactly the set of resident pages with a dirty frame;
  - the policy's queue lists the resident pages;
  - the counters add up.
- `Policies` (`policies.dfy`) proves, for every replacement in a replay of a
  trace, that each policy evicts the page its rule names. It proves that
  the page faults number at least the distinct pages referenced. It also proves that the FIFO
  simulation agrees with an independent definition of textbook FIFO, and on
  the trace `1,2,3,4,1,2,5,1,2,3,4,5` it derives Belady's anomaly: 9 faults
  with 3 frames, 10 with 4.
- `Statistics` (`statistics.dfy`) covers `get_stats`. Rates and the
  effective access time are stated over the reals.
- `Simulator` (`simulator.dfy`) is the class `MemorySimulator`, with one
  field per attribute. The methods update those fields in place, with loops
  where the source has them. Each method is proved to move the abstract
  state (`Abstract()`) exactly as the matching `Engine` function does.
- `Wrappers` (`wrappers.dfy`) holds the `Option` type.

Python dictionaries iterate in insertion order, and the source depends on
that in two places:

- the OPT victim scan walks the page table;
- the stable sort of `top_pages` visits the frequency table.

So the page table is a map plus its key order (`pageOrder`), and the frequency
table is a map plus its first-seen order. A page deleted from the page table
and later re-inserted goes to the end, as in Python. The `lru_cache`
`OrderedDict` is modelled by its key order alone: its values only repeat the
page table.

## Verifying

All seven files are verified together, from this directory:

```
dafny verify --resource-limit 2000000 --verification-time-limit 0 --warn-contradictory-assumptions wrappers.dfy trace.dfy opt_index.dfy engine.dfy policies.dfy statistics.dfy simulator.dfy
```

Each proof is written to stay within that resource limit whatever the solver
seed (`--boogie /randomSeed:N`), and to need none of the flags, so plain
`dafny verify *.dfy` is meant to accept the same files.

## Model

| member | source | states |
|---|---|---|
| Trace.PageNumber | main.py:41 | `address >> 12` is the page holding the address: `page * 4096 <= address < page * 4096 + 4096`, negative addresses included |
| Trace.PageNumberExamples | main.py:41 | 0x1000 is on page 1, 0xFFF on page 0, 0x1FFF on page 1, and -1 on page -1 (the shift floors) |
| Trace.ReferencesOf | main.py:35-42 | one reference per valid trace line, in order, with the line's operation and the page holding its address |
| Trace.ReferencesOfPrefix | main.py:35-42 | reading one more line appends exactly its reference |
| Trace.Record | main.py:43 | the definition of one `page_access_frequency` update: an existing page gains one, a new page enters with count 1 at the end of the key order; `Trace.RecordTallies` proves it keeps the table exact |
| Trace.RecordAll | main.py:43 | the definition of counting a whole trace, one reference after another; `Trace.FrequencyOfTrace` proves the result is the table of occurrence counts |
| Trace.RecordTallies | main.py:43 | counting one more access keeps the table exact: keys are the pages seen, counts are occurrence counts, key order is first-seen order |
| Trace.FrequencyOfTrace | main.py:43 | after a whole trace, from an empty table, each page's count is its number of occurrences, the keys are exactly the pages of the trace, and they are in order of first access |
| Trace.SortByCount | main.py:184 | `sorted(..., key=count, reverse=True)` returns a permutation of the items, in descending count |
| Trace.InsertByCount | main.py:184 | the insertion step of the stable sort returns the list with the item added, nothing lost or duplicated |
| Trace.InsertByCountDescending | main.py:184 | inserting one item into a descending list keeps it descending |
| Trace.SortByCountIsStable | main.py:184 | the sort is stable: for every count, the items with that count keep their input order |
| Trace.Items | main.py:184 | the definition of `page_access_frequency.items()`: one item per key, in key order, with its count; `Trace.TopPagesListsCounts` and `Trace.TopPagesTiesInFirstSeenOrder` state what the ranking keeps of it |
| Trace.TopPages | main.py:184 | the definition of `top_pages`: the frequency items sorted by descending count and cut to 20; its meaning is proved by the three lemmas that follow |
| Trace.TopPagesListsCounts | main.py:184 | `top_pages` has min(20, number of distinct pages) entries, in descending count, each a page of the table with its exact count |
| Trace.TopPagesLeavesOutLessAccessed | main.py:184 | a page missing from `top_pages` was accessed no more often than any listed page |
| Trace.TopPagesTiesInFirstSeenOrder | main.py:184 | listed pages with equal counts appear in the order they were first accessed |
| OptIndex.PositionsFrom | main.py:56-60 | every gathered position is at or after the start and references the page |
| OptIndex.PositionsComplete | main.py:56-60 | every position at or after the start that references the page is gathered |
| OptIndex.PositionsAscending | main.py:56-64 | the gathered positions are ascending, so `heapify` keeps the smallest first |
| OptIndex.Gather | main.py:56-60 | the definition of `page_positions`: each page of the trace maps to all its positions; `OptIndex.PositionsFrom` and `OptIndex.PositionsComplete` prove those are exactly the positions that reference it |
| OptIndex.GatherPrefix | main.py:56-60 | the definition of `page_positions` after `i` turns of the first loop; `OptIndex.GatherPrefixIsGather` states its meaning |
| OptIndex.GatherPrefixIsGather | main.py:56-60 | after `i` turns of the first loop, `page_positions` is the gathering of the first `i` references |
| OptIndex.GatherStep | main.py:56-60 | one turn of the gathering loop adds position `i` to the list of `pages[i]`, creating the list if the page is new |
| OptIndex.PopEachPopsAll | main.py:67-70 | the last loop of preprocessing pops every non-empty heap exactly once into `next_ref`, whatever the key order |
| OptIndex.Pop | main.py:67-70 | the definition of `heappop` on an ascending heap: the smallest position leaves; `OptIndex.PositionsAfterFirst` and `OptIndex.AdvanceCursorOfAccessedPage` state what remains |
| OptIndex.PopOne | main.py:68-70 | the definition of one turn of the third loop: a non-empty heap gives its smallest position to `next_ref`; `OptIndex.PopEachPopsAll` states the loop's result |
| OptIndex.PopEach | main.py:67-70 | the definition of the third loop over the keys in order; `OptIndex.PopEachPopsAll` proves it pops each heap once, whatever the order |
| OptIndex.PopFirst | main.py:67-70 | the definition of the third loop: every non-empty heap loses its smallest position, which becomes the page's `next_ref`; `OptIndex.PopEachPopsAll` proves the loop computes it in any key order |
| OptIndex.Preprocess | main.py:55-70 | the definition of `_preprocess_opt_references` on fresh heaps; `OptIndex.PreprocessCursorOf` proves each cursor is the first use |
| OptIndex.NextUse | main.py:94-99 | the reference definition of a cursor: when present, a position at or after `pos` that references the page |
| OptIndex.NextUseIsFirst | main.py:94-99 | `NextUse` is the first such position: no occurrence at or after `pos` comes before it |
| OptIndex.NextUseIsFirstPosition | main.py:94-99 | `NextUse` is the head of the page's remaining positions, None when there are none |
| OptIndex.PositionsAfterFirst | main.py:94-99 | popping the head of a page's positions leaves exactly the positions after that head |
| OptIndex.Advance | main.py:94-99 | the definition of `_update_opt_next_ref`: only a cursor equal to `pos` moves, to the head of its heap or to None; `OptIndex.AdvanceCursors` proves it keeps the lookahead current |
| OptIndex.PreprocessCursorOf | main.py:55-70 | after preprocessing, each page's cursor is its first use and its heap holds its later uses |
| OptIndex.PreprocessCursors | main.py:55-70 | preprocessing leaves the lookahead current at position 0 for every page of the trace |
| OptIndex.AdvanceCursorOfAccessedPage | main.py:94-99 | consuming position `pos` moves the accessed page's cursor to its next use after `pos`, or to None |
| OptIndex.AdvanceCursors | main.py:94-99 | `_update_opt_next_ref` at `pos` takes a lookahead current at `pos` to one current at `pos + 1` |
| OptIndex.NextUseOf | main.py:147 | the definition of `next_ref.get(page, None)`; `OptIndex.CursorIsNextUse` states its meaning |
| OptIndex.CursorIsNextUse | main.py:94-99 | while the lookahead is current, `next_ref.get(page)` is the page's first use at or after the current position |
| OptIndex.OptScan | main.py:146-156 | the scan returns the initial victim or a page it has visited |
| OptIndex.OptScanFrom | main.py:146-156 | once the running maximum is set, the rest of the scan ends on Belady's choice |
| OptIndex.OptVictim | main.py:143-156 | the definition of the OPT scan over the page table in key order; `OptIndex.OptVictimIsFurthest` proves it follows Belady's rule |
| OptIndex.OptVictimIsFurthest | main.py:143-156 | over a non-empty page table the scan returns Belady's choice: the first page never used again if there is one, else the page with the strictly largest next use (first on a tie) |
| OptIndex.FurthestChoiceUnique | main.py:143-156 | Belady's rule as the scan applies it names exactly one page |
| Engine.Without | main.py:112-117 | deleting a key from an ordered dictionary removes exactly that key, keeps the keys distinct, shortens by one when the key was present and changes nothing when it was absent |
| Engine.WithoutKeepsOrder | main.py:112-117 | deleting a key present once leaves the keys before it and the keys after it in their order |
| Engine.MoveToEnd | main.py:85 | the definition of `move_to_end`: the key is deleted and appended last; `Engine.MoveToEndKeepsSameElements` and `Policies.HitKeepsLruRecency` state its meaning |
| Engine.Init | main.py:8-29 | the definition of the state `__init__` builds: empty tables, queues and counters, no lookahead; `Engine.InitInv` states that it satisfies the invariant |
| Engine.InitInv | main.py:8-29 | the invariant holds for a fresh simulator |
| Engine.MarkDirtyKeepsTables | main.py:87-89 | a write hit dirties the page's frame and adds the page to the dirty set, keeping the tables consistent |
| Engine.AddKeepsTables | main.py:102-126 | loading into the next free frame `len(page_table)` keeps the tables inverse, bounded and dirty-consistent |
| Engine.ReplaceKeepsTables | main.py:104-126 | replacing the victim in its own frame keeps the tables inverse, bounded and dirty-consistent |
| Engine.SelectVictimFrame | main.py:133-158 | the frame returned is in use; only the FIFO queue or the LRU order changes |
| Engine.Victim | main.py:106-107 | the victim is a resident page, and its frame is the one selected |
| Engine.Evict | main.py:107-117 | the definition of evicting a frame's page: a disk write iff the frame is dirty, and the page leaves the page table, its key order, the dirty set and `lru_cache`; `Engine.EvictOutcome` states the result |
| Engine.MakeRoom | main.py:105-117 | the definition of the full-memory branch: one replacement, the victim the policy selects, then its eviction; `Engine.AccessEvict` states the result |
| Engine.QueueHeadResident | main.py:134-140 | a queue that lists the resident pages of a full memory has a head, and the head is resident |
| Engine.VictimByPolicy | main.py:133-156 | FIFO evicts the head of `fifo_queue`, LRU the front of `lru_cache`, OPT the page the scan picks |
| Engine.HitOutcome | main.py:80-89 | a hit keeps both mappings and the set of frames in use; it adds a hit and under LRU moves the page to the end. A write dirties the page's frame and adds the page to the dirty set; every other frame entry and the rest of the dirty set stay as they were |
| Engine.FillOutcome | main.py:102-131 | a fault with a free frame loads the page into frame `len(page_table)`, dirty iff a write, and appends it to the policy's queue. The new frame table is the old one plus that entry, and the dirty set gains the page exactly on a write |
| Engine.EvictOutcome | main.py:104-131 | a fault with full frames evicts the victim and reuses its frame. It adds one replacement, and one disk write iff the frame was dirty. The victim leaves the page table, the dirty set and the queues. The new frame table is the old one with only the victim's frame overwritten, and the dirty set gains the new page exactly on a write |
| Engine.Hit | main.py:80-89 | the definition of the hit branch; `Engine.HitOutcome` states its result |
| Engine.Install | main.py:119-131 | the definition of mapping the page into a frame and queueing it; `Engine.FillOutcome` and `Engine.EvictOutcome` state its result |
| Engine.HandlePageFault | main.py:101-131 | the definition of `_handle_page_fault`: the next free frame while one is free, otherwise the victim's frame; `Engine.AccessFill` and `Engine.AccessEvict` state its result |
| Engine.Prepare | main.py:74-78 | each access adds one access and one read or write; under OPT it advances the cursor; nothing else changes |
| Engine.UpdateOptNextRef | main.py:94-99 | the definition of `_update_opt_next_ref` on the state: only the lookahead moves, as `OptIndex.Advance`; `OptIndex.AdvanceCursors` states its meaning |
| Engine.CountFault | main.py:91 | the definition of `self.page_faults += 1`; `Engine.AccessPreservesInv` states that an access counts a fault exactly when the page was missing |
| Engine.Lookup | main.py:80-92 | the definition of the hit-or-fault branch; `Engine.AccessHit`, `Engine.AccessFill` and `Engine.AccessEvict` state its three cases |
| Engine.Access | main.py:73-92 | the definition of one iteration of `simulate`; `Engine.AccessPreservesInv` proves it keeps the invariant |
| Engine.AccessHit | main.py:72-89 | an access to a resident page is a hit and leaves the mappings as they were; only that page's dirty bit and dirty-set membership can change, and only on a write |
| Engine.AccessFill | main.py:90-131 | an access to a missing page with a free frame is a fault that fills that frame; the rest of the frame table and of the dirty set is unchanged |
| Engine.AccessEvict | main.py:90-131 | an access to a missing page with full frames is a fault that evicts the victim the policy names; only the victim's frame entry is overwritten, and the dirty set loses the victim and gains the page exactly on a write |
| Engine.AccessPreservesInv | main.py:72-131 | every access preserves the invariant. The accessed page ends up resident and no other page becomes resident. The access counts as a fault exactly when the page was missing |
| Engine.Step | main.py:73-92 | one iteration of `simulate`'s loop preserves the invariant and counts the reference once |
| Engine.Replay | main.py:72-92 | replaying `k` references keeps the invariant and adds `k` accesses |
| Engine.Start | main.py:8-48 | the state after `__init__` and loading satisfies the invariant |
| Engine.ReplayCounts | main.py:74-105 | after a whole trace: hits + faults = references, reads + writes = references, disk writes <= replacements <= faults, resident pages <= frames |
| Policies.WithoutHead | main.py:135 | removing the head of a duplicate-free queue is `popleft` |
| Policies.AccessKeepsFifoOrder | main.py:128-136 | under FIFO the queue is always the resident pages in load order |
| Policies.FifoEvictsOldest | main.py:134-136 | under FIFO the victim is the oldest resident page, and the new page goes last |
| Policies.LastUse | main.py:84-85 | the reference definition of recency: the latest position before `pos` that touched the page, or -1 |
| Policies.LastUseIsLatest | main.py:84-85 | no position between a page's last use and `pos` references it |
| Policies.WithoutKeepsByRecency | main.py:116-117 | deleting a key from the LRU order keeps it ordered by recency |
| Policies.AppendLatest | main.py:130-131 | the page touched at `pos` is the most recent, so appending it keeps the order |
| Policies.TailKeepsByRecency | main.py:139 | `popitem(last=False)` keeps the order by recency |
| Policies.HitKeepsLruRecency | main.py:84-85 | a hit keeps `lru_cache` ordered from least to most recently used |
| Policies.FillKeepsLruRecency | main.py:130-131 | loading into a free frame keeps `lru_cache` ordered by recency |
| Policies.EvictKeepsLruRecency | main.py:116-139 | an eviction keeps `lru_cache` ordered by recency |
| Policies.AccessKeepsLruRecency | main.py:84-140 | under LRU every access keeps `lru_cache` ordered from least to most recently used |
| Policies.LruEvictsLeastRecent | main.py:138-140 | under LRU the victim was used strictly less recently than every other resident page |
| Policies.AccessKeepsOptCursors | main.py:77-99 | under OPT every access keeps the lookahead current |
| Policies.OptEvictsFurthest | main.py:142-156 | under OPT the victim is Belady's choice among the resident pages' true next uses after the faulting position |
| Policies.SeenIsReferenced | main.py:80-92 | the distinct pages seen are exactly those referenced before `k` |
| Policies.SeenHasLastUse | main.py:80-92 | a page was seen before `pos` iff it has a last use |
| Policies.FirstUsesCountSeen | main.py:80-92 | the number of first references equals the number of distinct pages seen |
| Policies.AccessKeepsReferenced | main.py:90-119 | resident pages are always pages already referenced, and the faults are at least the first references |
| Policies.StartTracked | main.py:8-70 | a fresh, loaded simulator satisfies every policy's invariant at position 0 |
| Policies.StepTracked | main.py:72-92 | each iteration of `simulate` keeps every policy's invariant |
| Policies.Run | main.py:72-92 | the replay of the first `k` references keeps every policy's invariant |
| Policies.RunStep | main.py:73-92 | the `k`-th reference of a replay is one more access |
| Policies.RunIsReplay | main.py:72-92 | that replay is `simulate` on a freshly loaded simulator |
| Policies.CompulsoryFaults | main.py:80-92 | the page faults number at least the distinct pages referenced |
| Policies.FifoLoad | main.py:101-136 | textbook FIFO on one reference: the page ends up loaded, no more than `n` pages are loaded, and nothing new but the page appears |
| Policies.FifoFrames | main.py:101-136 | textbook FIFO never holds more than `n` pages |
| Policies.FifoFaults | main.py:101-136 | textbook FIFO faults at most once per reference |
| Policies.FifoAccess | main.py:101-136 | one access of the simulator under FIFO is one step of textbook FIFO, with a fault exactly when the page was missing |
| Policies.FifoStep | main.py:101-136 | one step of textbook FIFO extends its run by one reference |
| Policies.RunIsTextbookFifo | main.py:72-136 | for every trace and frame count, the FIFO simulation holds the same pages in the same order and counts the same faults as textbook FIFO |
| Policies.ThreeFramesFaults | main.py:101-136 | textbook FIFO with 3 frames faults 9 times on that trace (stepped through by `ThreeFramesAfter3`, `ThreeFramesAfter6`, `ThreeFramesAfter9`) |
| Policies.FourFramesFaults | main.py:101-136 | textbook FIFO with 4 frames faults 10 times on that trace (stepped through by `FourFramesAfter3`, `FourFramesAfter6`, `FourFramesAfter9`) |
| Policies.ThreeFramesRun | main.py:72-136 | the simulator replaying that trace under FIFO with 3 frames counts 9 page faults |
| Policies.FourFramesRun | main.py:72-136 | with 4 frames the same replay counts 10 page faults: one frame more, one fault more (Belady's anomaly) |
| Statistics.Percent | main.py:164-165 | the definition of a rate as a percentage of the accesses; `Statistics.PercentSplit` bounds it |
| Statistics.GetStats | main.py:160-185 | the definition of the integer and real fields of `get_stats`, None when there was no access; `Statistics.StatsOfRun` states what they satisfy |
| Statistics.PercentSplit | main.py:164-165 | a rate is between 0 and 100 percent, and the hit and fault rates add up to 100 |
| Statistics.StatsOfRun | main.py:160-185 | `get_stats` is empty exactly when there was no access. Otherwise hits + faults = accesses, reads + writes = accesses, and disk writes <= replacements <= faults. The two rates add up to 100, and the effective access time lies between 100 ns and 100 ns + 10 ms, linear in the fault rate |
| Simulator.MemorySimulator.constructor | main.py:8-29 | `__init__` yields the fresh state, which satisfies the invariant, and an empty frequency table |
| Simulator.MemorySimulator.LoadTrace | main.py:31-50 | loading returns the trace's references, counts each access in the frequency table and, under OPT, preprocesses the trace |
| Simulator.MemorySimulator.PreprocessOptReferences | main.py:55-70 | on fresh OPT heaps the three loops leave exactly the lookahead `Preprocess` defines |
| Simulator.GatherPositions | main.py:56-60 | the first loop gathers each page's positions, and `keys` lists each gathered page once |
| Simulator.StoreHeaps | main.py:62-65 | the second loop stores each gathered list as its page's heap, replacing that page's earlier heap |
| Simulator.PopFirstPositions | main.py:67-70 | the third loop pops every heap's smallest position into a fresh `next_ref` |
| Simulator.MemorySimulator.Simulate | main.py:72-92 | `simulate` moves the simulator exactly as the replay of the references does |
| Simulator.MemorySimulator.Iterate | main.py:73-92 | one iteration of the loop is one more step of the replay |
| Simulator.MemorySimulator.Access | main.py:74-92 | the body of the loop is `Engine.Access` on the fields |
| Simulator.MemorySimulator.Prepare | main.py:74-78 | the counters and the OPT cursor change as `Engine.Prepare` states |
| Simulator.MemorySimulator.CountAccess | main.py:74-75 | one more access, and one more read or write according to the operation |
| Simulator.MemorySimulator.Lookup | main.py:80-92 | the hit-or-fault branch acts as `Engine.Lookup` |
| Simulator.MemorySimulator.Hit | main.py:80-89 | the hit branch acts as `Engine.Hit` |
| Simulator.MemorySimulator.Promote | main.py:84-85 | under LRU the page moves to the end of `lru_cache`; otherwise nothing changes |
| Simulator.MemorySimulator.MarkDirty | main.py:87-89 | a write hit sets the frame's dirty flag and adds the page to the dirty set |
| Simulator.MemorySimulator.UpdateOptNextRef | main.py:94-99 | the cursor moves as `Advance` states, which keeps it on the page's next use |
| Simulator.MemorySimulator.HandlePageFault | main.py:101-131 | fault handling acts as `Engine.HandlePageFault` |
| Simulator.MemorySimulator.MakeRoom | main.py:104-117 | memory full: one replacement, then the victim's frame once it is evicted, as `Engine.MakeRoom` states |
| Simulator.MemorySimulator.Evict | main.py:107-117 | the victim is written back if dirty and unmapped |
| Simulator.MemorySimulator.WriteBack | main.py:109-110 | one disk write exactly when the frame is dirty |
| Simulator.MemorySimulator.Unmap | main.py:112-117 | the victim leaves the page table, its key order, the dirty set and, under LRU, `lru_cache` |
| Simulator.MemorySimulator.Install | main.py:119-131 | installing the page acts as `Engine.Install` |
| Simulator.MemorySimulator.MapPage | main.py:119-126 | the page maps to the frame, the frame holds the page, dirty iff a write |
| Simulator.MemorySimulator.Enqueue | main.py:128-131 | under FIFO the page is appended to the queue; under LRU it is added at the end if new |
| Simulator.MemorySimulator.SelectVictimFrame | main.py:133-158 | the loops select the frame `Engine.SelectVictimFrame` names, which is in use and belongs to the policy's victim |
| Simulator.MemorySimulator.GetStats | main.py:160-185 | the report is `Statistics.GetStats` of the current state and frequency table |
| Simulator.RunConfiguration | main.py:233-238 | a fresh simulator that loads, simulates and reports yields the statistics of the replay. The report is empty exactly for a trace without valid lines. Otherwise it counts every reference once, as a hit or as a fault, and the two rates add up to 100 |

## Left out

- Reading the trace file is left out: opening the file, `FileNotFoundError`, `sys.exit`, and hex parsing with the `ValueError` skip (main.py:31-53). The input is a sequence of already parsed lines (`TraceLine`: an integer address and `R` or `W`).
- Operations other than `R` and `W` are left out: in the source they raise `KeyError` at main.py:75. `Op` has only those two values.
- Unknown policy names are left out (main.py:23-29, 158): `Policy` is FIFO, LRU or OPT, and every simulator requires `frame_count >= 1`.
- `heapq` is left out: each heap is an ascending sequence popped from the front. Only "the smallest remaining position comes out first" matters, and the gathered lists are already ascending.
- Floating point is left out: hit rate, fault rate and EAT are stated over `real`, so rounding is not modelled.
- Wall-clock time (`start_time`, `execution_time`) and the `trace_file` attribute are left out: they are I/O and do not affect the simulation.
- Report printing, aggregation across runs and the command-line driver are left out (main.py:187-349). `Simulator.RunConfiguration` models only the body of the innermost loop of `run_simulations`.
- Simulator.MemorySimulator.PreprocessOptReferences: requires the OPT heaps to be empty, as on a fresh simulator. The source preprocesses once per simulator (main.py:233-235). On a reused simulator it would also pop the heaps of pages left over from an earlier trace; that case is not modelled.
- Simulator.MemorySimulator.LoadTrace: for the same reason, under OPT it requires fresh heaps.
- OPT's optimality (no policy faults less) is not proved. The model proves that each OPT eviction follows Belady's rule.
- "A frame is dirty iff a write touched the page since it was loaded" is stated step by step, not as a single history predicate: `Engine.HitOutcome`, `Engine.FillOutcome` and `Engine.EvictOutcome` give the whole new frame table and dirty set of each access, so a frame's dirty bit changes only when its page is loaded or written.
- Two behaviours of the code to note; the model follows the code:
  - `get_stats` returns an empty dictionary when there was no access, not zero statistics. The model returns `None`.
  - An evicted page's frame entry is overwritten by the new page rather than deleted first (main.py:112, 120).
