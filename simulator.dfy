/**
 * The class `MemorySimulator` itself: one field per attribute of the Python
 * object, updated in place by its methods. `Abstract()` reads the fields as
 * an `Engine.State`, and every method is proved to move that state exactly as
 * the corresponding function of module Engine does.
 */
module Simulator {
  import opened Wrappers
  import opened Trace
  import opened OptIndex
  import opened Engine
  import Statistics

  class MemorySimulator {
    const frameCount: nat
    const policy: Policy
    /** `page_table`, with `pageOrder` its key order. */
    var pageTable: map<int, nat>
    var pageOrder: seq<int>
    var frameTable: map<nat, Frame>
    var dirtyPages: set<int>
    var pageFaults: nat
    var diskWrites: nat
    var replacements: nat
    var hits: nat
    var totalAccesses: nat
    /** `operation_stats['R']` and `operation_stats['W']`. */
    var readCount: nat
    var writeCount: nat
    /** `page_access_frequency`. */
    var frequency: FrequencyTable
    var fifoQueue: seq<int>
    /** The key order of `lru_cache`. */
    var lruCache: seq<int>
    /** `opt_future_refs` and `next_ref`. */
    var futureRefs: map<int, seq<nat>>
    var nextRef: map<int, Option<nat>>

    function Abstract(): State
      reads this
    {
      State(frameCount, policy, Memory(pageTable, pageOrder, frameTable, dirtyPages),
            Stats(pageFaults, diskWrites, replacements, hits, totalAccesses, readCount, writeCount),
            fifoQueue, lruCache, Lookahead(futureRefs, nextRef))
    }

    ghost predicate Valid()
      reads this
    {
      Inv(Abstract())
    }

    /** `__init__`: empty tables, zero counters, empty policy structures. */
    constructor(frameCount: nat, policy: Policy)
      requires frameCount >= 1
      ensures Valid() && Abstract() == Init(frameCount, policy) && frequency == EmptyFrequency
    {
      this.frameCount := frameCount;
      this.policy := policy;
      pageTable := map[];
      pageOrder := [];
      frameTable := map[];
      dirtyPages := {};
      pageFaults := 0;
      diskWrites := 0;
      replacements := 0;
      hits := 0;
      totalAccesses := 0;
      readCount := 0;
      writeCount := 0;
      frequency := EmptyFrequency;
      fifoQueue := [];
      lruCache := [];
      futureRefs := map[];
      nextRef := map[];
      new;
      InitInv(frameCount, policy);
    }

    /**
     * The part of `load_trace_file` past reading the file: each parsed line
     * becomes a reference to page `address >> 12` and counts one access to
     * that page; under OPT the trace is then preprocessed.
     */
    method LoadTrace(trace: seq<TraceLine>) returns (refs: seq<Reference>)
      requires policy == OPT ==> futureRefs == map[]
      modifies this`frequency, this`futureRefs, this`nextRef
      ensures refs == ReferencesOf(trace)
      ensures frequency == RecordAll(old(frequency), Pages(refs))
      ensures Abstract() == if policy == OPT then old(Abstract()).(lookahead := Preprocess(Pages(refs)))
                            else old(Abstract())
    {
      refs := [];
      var i := 0;
      while i < |trace|
        invariant i <= |trace|
        invariant refs == ReferencesOf(trace[..i])
        invariant frequency == RecordAll(old(frequency), Pages(refs))
        invariant Abstract() == old(Abstract())
      {
        var page := PageNumber(trace[i].address);
        ReferencesOfPrefix(trace, i);
        PagesAppend(refs, Reference(page, trace[i].op));
        RecordAllAppend(old(frequency), Pages(refs), page);
        refs := refs + [Reference(page, trace[i].op)];
        frequency := Record(frequency, page);
        i := i + 1;
      }
      assert trace[..|trace|] == trace;
      if policy == OPT {
        PreprocessOptReferences(refs);
      }
    }

    /**
     * `_preprocess_opt_references`: gather the positions of every page, store
     * them as the heaps of those pages, then pop every heap's first position
     * into the emptied `next_ref`.
     */
    method PreprocessOptReferences(refs: seq<Reference>)
      requires futureRefs == map[]
      modifies this`futureRefs, this`nextRef
      ensures Lookahead(futureRefs, nextRef) == Preprocess(Pages(refs))
    {
      var positions, keys := GatherPositions(refs);
      // Every list is ascending, so `heapify` leaves it as it is.
      var heaps := StoreHeaps(futureRefs, positions, keys);
      assert heaps == positions;
      var next;
      heaps, next := PopFirstPositions(heaps, keys);
      futureRefs := heaps;
      nextRef := next;
    }

    /**
     * `simulate`: each reference counts one access and one read or write, moves
     * the OPT cursor, and is then a hit (LRU moves the page to the end, a write
     * dirties its frame) or a fault handled by `HandlePageFault`.
     */
    method Simulate(refs: seq<Reference>)
      requires Valid()
      modifies this`pageTable, this`pageOrder, this`frameTable, this`dirtyPages, this`pageFaults,
               this`diskWrites, this`replacements, this`hits, this`totalAccesses, this`readCount,
               this`writeCount, this`fifoQueue, this`lruCache, this`futureRefs, this`nextRef
      ensures Abstract() == Replay(old(Abstract()), refs, |refs|)
    {
      ghost var s0: ValidState := old(Abstract());
      var i := 0;
      while i < |refs|
        invariant i <= |refs|
        invariant Abstract() == Replay(s0, refs, i)
      {
        Iterate(s0, refs, i);
        i := i + 1;
      }
    }

    /** Iteration `i` of `simulate`'s loop, from the state the earlier iterations left. */
    method Iterate(ghost s0: ValidState, refs: seq<Reference>, i: nat)
      requires i < |refs| && Abstract() == Replay(s0, refs, i)
      modifies this`pageTable, this`pageOrder, this`frameTable, this`dirtyPages, this`pageFaults,
               this`diskWrites, this`replacements, this`hits, this`totalAccesses, this`readCount,
               this`writeCount, this`fifoQueue, this`lruCache, this`futureRefs, this`nextRef
      ensures Abstract() == Replay(s0, refs, i + 1)
    {
      Access(Replay(s0, refs, i), refs[i].page, refs[i].op, i);
    }

    /** One iteration of `simulate`'s loop: the reference `(page, op)` at position `pos`. */
    method Access(ghost s: ValidState, page: int, op: Op, pos: nat)
      requires Abstract() == s
      modifies this`pageTable, this`pageOrder, this`frameTable, this`dirtyPages, this`pageFaults,
               this`diskWrites, this`replacements, this`hits, this`totalAccesses, this`readCount,
               this`writeCount, this`fifoQueue, this`lruCache, this`futureRefs, this`nextRef
      ensures Abstract() == Engine.Access(s, page, op, pos)
    {
      Prepare(s, page, op, pos);
      Lookup(Engine.Prepare(s, page, op, pos), page, op, pos);
    }

    /** The counting `simulate` does before it looks the page up, and `_update_opt_next_ref`. */
    method Prepare(ghost s: ValidState, page: int, op: Op, pos: nat)
      requires Abstract() == s
      modifies this`totalAccesses, this`readCount, this`writeCount, this`futureRefs, this`nextRef
      ensures Abstract() == Engine.Prepare(s, page, op, pos)
    {
      CountAccess(op);
      if policy == OPT {
        UpdateOptNextRef(page, pos);
      }
    }

    /** `total_accesses += 1` and `operation_stats[operation] += 1`. */
    method CountAccess(op: Op)
      modifies this`totalAccesses, this`readCount, this`writeCount
      ensures totalAccesses == old(totalAccesses) + 1
      ensures readCount == if op == R then old(readCount) + 1 else old(readCount)
      ensures writeCount == if op == W then old(writeCount) + 1 else old(writeCount)
    {
      totalAccesses := totalAccesses + 1;
      if op == R {
        readCount := readCount + 1;
      } else {
        writeCount := writeCount + 1;
      }
    }

    /** The lookup in `simulate`: a hit, or a fault that is counted and handled. */
    method Lookup(ghost s: Consistent, page: int, op: Op, pos: nat)
      requires Abstract() == s
      modifies this`pageTable, this`pageOrder, this`frameTable, this`dirtyPages, this`pageFaults,
               this`diskWrites, this`replacements, this`hits, this`fifoQueue, this`lruCache
      ensures Abstract() == Engine.Lookup(s, page, op)
    {
      if page in pageTable {
        Hit(page, op);
      } else {
        pageFaults := pageFaults + 1;
        HandlePageFault(CountFault(s), page, op, pos);
      }
    }

    /** The hit branch of `simulate`. */
    method Hit(page: int, op: Op)
      requires page in pageTable && pageTable[page] in frameTable
      modifies this`hits, this`lruCache, this`frameTable, this`dirtyPages
      ensures Abstract() == Engine.Hit(old(Abstract()), page, op)
    {
      hits := hits + 1;
      Promote(page);
      if op == W {
        MarkDirty(page);
      }
    }

    /** Under LRU, `move_to_end`: the page becomes the most recently used. */
    method Promote(page: int)
      modifies this`lruCache
      ensures lruCache == if policy == LRU then MoveToEnd(old(lruCache), page) else old(lruCache)
    {
      if policy == LRU {
        lruCache := MoveToEnd(lruCache, page);
      }
    }

    /** A write hit: the page's frame becomes dirty and the page joins the dirty set. */
    method MarkDirty(page: int)
      requires page in pageTable && pageTable[page] in frameTable
      modifies this`frameTable, this`dirtyPages
      ensures frameTable == old(frameTable)[pageTable[page] := old(frameTable)[pageTable[page]].(dirty := true)]
      ensures dirtyPages == old(dirtyPages) + {page}
    {
      var frame := pageTable[page];
      frameTable := frameTable[frame := frameTable[frame].(dirty := true)];
      dirtyPages := dirtyPages + {page};
    }

    /** `_update_opt_next_ref`. */
    method UpdateOptNextRef(page: int, pos: nat)
      modifies this`futureRefs, this`nextRef
      ensures Lookahead(futureRefs, nextRef) == Advance(old(Lookahead(futureRefs, nextRef)), page, pos)
    {
      if page in nextRef && nextRef[page] == Some(pos) {
        if page in futureRefs && |futureRefs[page]| > 0 {
          nextRef := nextRef[page := Some(futureRefs[page][0])];
          futureRefs := futureRefs[page := futureRefs[page][1..]];
        } else {
          nextRef := nextRef[page := None];
        }
      }
    }

    /**
     * `_handle_page_fault`: a free frame is `len(page_table)`, otherwise the
     * frame `MakeRoom` frees; the page then takes the frame.
     */
    method HandlePageFault(ghost s: Consistent, page: int, op: Op, pos: nat)
      requires Abstract() == s && page !in pageTable
      modifies this`pageTable, this`pageOrder, this`frameTable, this`dirtyPages, this`diskWrites,
               this`replacements, this`fifoQueue, this`lruCache
      ensures Abstract() == Engine.HandlePageFault(s, page, op)
    {
      var frame: nat;
      if |pageTable| < frameCount {
        frame := |pageTable|;
      } else {
        frame := MakeRoom(s, pos);
      }
      Install(page, op, frame);
    }

    /** The replacing half of `_handle_page_fault`. */
    method MakeRoom(ghost s: Consistent, pos: nat) returns (frame: nat)
      requires Abstract() == s && |pageTable| >= frameCount
      modifies this`pageTable, this`pageOrder, this`dirtyPages, this`diskWrites, this`replacements,
               this`fifoQueue, this`lruCache
      ensures (Abstract(), frame) == Engine.MakeRoom(s)
    {
      replacements := replacements + 1;
      SelectVictimIgnoresStats(s, Abstract().stats);
      ghost var s1 := Abstract();
      frame := SelectVictimFrame(s1, pos);
      ghost var s2 := Abstract();
      assert (s2, frame) == (Engine.SelectVictimFrame(s).0.(stats := s1.stats), Engine.SelectVictimFrame(s).1);
      Evict(frame);
    }

    /** The victim in `frame` is written back if dirty and leaves the tables. */
    method Evict(frame: nat)
      requires frame in frameTable
      modifies this`diskWrites, this`pageTable, this`pageOrder, this`dirtyPages, this`lruCache
      ensures Abstract() == Engine.Evict(old(Abstract()), frame)
    {
      var victim := frameTable[frame].pageNum;
      WriteBack(frame);
      Unmap(victim);
    }

    /** `disk_writes += 1` when the frame is dirty. */
    method WriteBack(frame: nat)
      requires frame in frameTable
      modifies this`diskWrites
      ensures diskWrites == if frameTable[frame].dirty then old(diskWrites) + 1 else old(diskWrites)
    {
      if frameTable[frame].dirty {
        diskWrites := diskWrites + 1;
      }
    }

    /** `victim` leaves the page table, the dirty set and, under LRU, the recency order. */
    method Unmap(victim: int)
      modifies this`pageTable, this`pageOrder, this`dirtyPages, this`lruCache
      ensures pageTable == old(pageTable) - {victim}
      ensures pageOrder == Without(old(pageOrder), victim)
      ensures dirtyPages == old(dirtyPages) - {victim}
      ensures lruCache == if policy == LRU && victim in old(lruCache) then Without(old(lruCache), victim)
                          else old(lruCache)
    {
      pageTable := pageTable - {victim};
      pageOrder := Without(pageOrder, victim);
      if victim in dirtyPages {
        dirtyPages := dirtyPages - {victim};
      }
      if policy == LRU && victim in lruCache {
        lruCache := Without(lruCache, victim);
      }
    }

    /** The tail of `_handle_page_fault`: the page moves into `frame`. */
    method Install(page: int, op: Op, frame: nat)
      modifies this`pageOrder, this`pageTable, this`frameTable, this`dirtyPages, this`fifoQueue, this`lruCache
      ensures Abstract() == Engine.Install(old(Abstract()), page, op, frame)
    {
      MapPage(page, op, frame);
      Enqueue(page);
    }

    /** `page_table[page_num] = frame_num`, the new frame entry, and the dirty set on a write. */
    method MapPage(page: int, op: Op, frame: nat)
      modifies this`pageOrder, this`pageTable, this`frameTable, this`dirtyPages
      ensures pageOrder == if page in old(pageTable) then old(pageOrder) else old(pageOrder) + [page]
      ensures pageTable == old(pageTable)[page := frame]
      ensures frameTable == old(frameTable)[frame := Frame(page, op == W)]
      ensures dirtyPages == if op == W then old(dirtyPages) + {page} else old(dirtyPages)
    {
      pageOrder := if page in pageTable then pageOrder else pageOrder + [page];
      pageTable := pageTable[page := frame];
      frameTable := frameTable[frame := Frame(page, op == W)];
      if op == W {
        dirtyPages := dirtyPages + {page};
      }
    }

    /** The page joins the FIFO queue or the LRU order. */
    method Enqueue(page: int)
      modifies this`fifoQueue, this`lruCache
      ensures fifoQueue == if policy == FIFO then old(fifoQueue) + [page] else old(fifoQueue)
      ensures lruCache == if policy == LRU && page !in old(lruCache) then old(lruCache) + [page] else old(lruCache)
    {
      if policy == FIFO {
        fifoQueue := fifoQueue + [page];
      } else if policy == LRU && page !in lruCache {
        // `lru_cache[page_num] = frame_num` appends a new key and keeps the place of an old one.
        lruCache := lruCache + [page];
      }
    }

    /**
     * `_select_victim_frame` (the position argument is unused there too):
     * FIFO pops the head of its queue, LRU the front of its order, and OPT
     * scans the page table for the first page never used again, keeping
     * otherwise the page with the strictly furthest next use.
     */
    method SelectVictimFrame(ghost s: Consistent, pos: nat) returns (frame: nat)
      requires Abstract() == s && |pageTable| >= frameCount
      modifies this`fifoQueue, this`lruCache
      ensures (Abstract(), frame) == Engine.SelectVictimFrame(s)
    {
      assert pageOrder[0] in pageOrder;
      match policy
      case FIFO =>
        assert fifoQueue[0] in fifoQueue;
        var victim := fifoQueue[0];
        fifoQueue := fifoQueue[1..];
        frame := pageTable[victim];
      case LRU =>
        assert lruCache[0] in lruCache;
        var victim := lruCache[0];
        lruCache := lruCache[1..];
        frame := pageTable[victim];
      case OPT =>
        var victim: Option<int> := None;
        var farthest: int := -1;
        var i := 0;
        while i < |pageOrder|
          invariant i <= |pageOrder|
          invariant OptScan(pageOrder, nextRef, i, victim, farthest) == OptVictim(pageOrder, nextRef)
          invariant victim.Some? ==> victim.value in pageOrder
        {
          var page := pageOrder[i];
          var nextUse := if page in nextRef then nextRef[page] else None;
          if nextUse.None? {
            assert page in pageOrder;
            return pageTable[page];
          }
          if nextUse.value > farthest {
            farthest := nextUse.value;
            victim := Some(page);
          }
          i := i + 1;
        }
        frame := if victim.Some? then pageTable[victim.value] else 0;
    }

    /** `get_stats`, less the wall-clock time and the file name. */
    method GetStats() returns (r: Option<Statistics.RunStats>)
      ensures r == Statistics.GetStats(Abstract(), frequency)
    {
      r := Statistics.GetStats(Abstract(), frequency);
    }
  }

  /**
   * One configuration of `run_simulations`: a fresh simulator loads the
   * trace, replays it and reports. The report is the statistics of the
   * engine's replay from `Start`, absent exactly for a trace without a valid
   * line, and otherwise counts every reference once as a hit or a fault.
   */
  method RunConfiguration(frameCount: nat, policy: Policy, trace: seq<TraceLine>)
    returns (stats: Option<Statistics.RunStats>)
    requires frameCount >= 1
    ensures var refs := ReferencesOf(trace);
      stats == Statistics.GetStats(Replay(Start(frameCount, policy, Pages(refs)), refs, |refs|),
                                   RecordAll(EmptyFrequency, Pages(refs)))
    ensures stats.None? <==> ReferencesOf(trace) == []
    ensures stats.Some? ==>
      && stats.value.totalAccesses == |ReferencesOf(trace)|
      && stats.value.hits + stats.value.pageFaults == stats.value.totalAccesses
      && stats.value.hitRate + stats.value.faultRate == 100.0
  {
    var simulator := new MemorySimulator(frameCount, policy);
    var refs := simulator.LoadTrace(trace);
    simulator.Simulate(refs);
    stats := simulator.GetStats();
    ghost var r := Replay(Start(frameCount, policy, Pages(refs)), refs, |refs|);
    ReplayCounts(frameCount, policy, refs);
    Statistics.StatsOfRun(r, RecordAll(EmptyFrequency, Pages(refs)));
  }

  /**
   * The first loop of `_preprocess_opt_references`: `page_positions`, with
   * `keys` its key order (each page where it first occurs).
   */
  method GatherPositions(refs: seq<Reference>) returns (positions: map<int, seq<nat>>, keys: seq<int>)
    ensures positions == Gather(Pages(refs))
    ensures Distinct(keys) && forall p :: p in keys <==> p in positions
  {
    ghost var pages := Pages(refs);
    positions := map[];
    keys := [];
    var i := 0;
    while i < |refs|
      invariant i <= |refs|
      invariant positions == GatherPrefix(pages, i)
      invariant Distinct(keys) && forall p :: p in keys <==> p in positions
    {
      var page := refs[i].page;
      assert pages[i] == page;
      if page !in positions {
        positions := positions[page := []];
        keys := keys + [page];
      }
      positions := positions[page := positions[page] + [i]];
      i := i + 1;
    }
    GatherPrefixIsGather(pages, |refs|);
    assert pages[..|refs|] == pages;
  }

  /** The second loop of `_preprocess_opt_references`: each gathered list becomes its page's heap. */
  method StoreHeaps(heaps: map<int, seq<nat>>, positions: map<int, seq<nat>>, keys: seq<int>)
    returns (r: map<int, seq<nat>>)
    requires forall p :: p in keys <==> p in positions
    ensures r == heaps + positions
  {
    r := heaps;
    var i := 0;
    while i < |keys|
      invariant i <= |keys|
      invariant forall p :: p in r <==> p in heaps || p in keys[..i]
      invariant forall p :: p in r ==> r[p] == if p in keys[..i] then positions[p] else heaps[p]
    {
      var p := keys[i];
      assert keys[..i + 1] == keys[..i] + [p];
      r := r[p := positions[p]];
      i := i + 1;
    }
    assert keys[..i] == keys;
    assert forall p :: p in r <==> p in heaps + positions;
    assert forall p :: p in r ==> r[p] == (heaps + positions)[p];
  }

  /**
   * The last loop of `_preprocess_opt_references`: every non-empty heap, in
   * key order, pops its smallest position into the emptied `next_ref`.
   */
  method PopFirstPositions(positions: map<int, seq<nat>>, keys: seq<int>)
    returns (heaps: map<int, seq<nat>>, next: map<int, Option<nat>>)
    requires Distinct(keys) && forall p :: p in keys <==> p in positions
    ensures Lookahead(heaps, next) == PopFirst(positions)
  {
    heaps := positions;
    next := map[];
    var i := 0;
    while i < |keys|
      invariant i <= |keys|
      invariant heaps.Keys == positions.Keys
      invariant PopEach(Lookahead(heaps, next), keys[i..]) == PopEach(Lookahead(positions, map[]), keys)
    {
      var p := keys[i];
      assert keys[i..] == [p] + keys[i + 1..];
      assert p in positions;
      if heaps[p] != [] {
        next := next[p := Some(heaps[p][0])];
        heaps := heaps[p := heaps[p][1..]];
      }
      i := i + 1;
    }
    assert keys[i..] == [];
    PopFirstExceptBounds(positions);
    PopEachPopsAll(positions, positions.Keys, keys);
  }
}
