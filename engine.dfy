/**
 * The replay engine of `MemorySimulator` as a state machine: a `State` holds
 * everything one run keeps (page and frame tables, dirty set, counters and the
 * structure of the chosen policy), and `Access` resolves one reference as a hit
 * or a page fault, exactly as `simulate` and the methods it calls do.
 */
module Engine {
  import opened Wrappers
  import opened Trace
  import opened OptIndex

  datatype Policy = FIFO | LRU | OPT

  /** A frame-table entry: the page the frame holds and its dirty bit. */
  datatype Frame = Frame(pageNum: int, dirty: bool)

  /**
   * `page_table`, `frame_table` and `dirty_pages`. `pageOrder` is the key
   * order of the `page_table` dict (insertion order; the OPT scan walks it).
   */
  datatype Memory = Memory(
    pageTable: map<int, nat>,
    pageOrder: seq<int>,
    frameTable: map<nat, Frame>,
    dirtyPages: set<int>)

  /** The counters `get_stats` reports. */
  datatype Stats = Stats(
    pageFaults: nat,
    diskWrites: nat,
    replacements: nat,
    hits: nat,
    totalAccesses: nat,
    readCount: nat,
    writeCount: nat)

  /**
   * One run. `fifoQueue` is the deque of FIFO, `lruCache` the key order of
   * LRU's OrderedDict, `lookahead` the heaps and cursors of OPT; a policy's
   * structure stays empty under the other policies.
   */
  datatype State = State(
    frameCount: nat,
    policy: Policy,
    mem: Memory,
    stats: Stats,
    fifoQueue: seq<int>,
    lruCache: seq<int>,
    lookahead: Lookahead)

  /** The state `__init__` builds. */
  function Init(frameCount: nat, policy: Policy): State {
    State(frameCount, policy, Memory(map[], [], map[], {}), Stats(0, 0, 0, 0, 0, 0, 0), [], [], NoLookahead)
  }

  /** `s` with `x` deleted, the other elements keeping their order (`del d[x]` on an ordered dict). */
  function Without(s: seq<int>, x: int): (r: seq<int>)
    ensures forall y :: y in r <==> y in s && y != x
    ensures |r| <= |s|
    ensures Distinct(s) ==> Distinct(r)
    ensures Distinct(s) && x in s ==> |r| == |s| - 1
    ensures x !in s ==> r == s
  {
    if s == [] then []
    else if s[0] == x then Without(s[1..], x)
    else
      var rest := Without(s[1..], x);
      assert Distinct(s) ==> s[0] !in s[1..];
      [s[0]] + rest
  }

  /**
   * Deleting a key present once takes out exactly that entry: the keys before
   * it and the keys after it stay, in their order.
   */
  lemma {:induction false} WithoutKeepsOrder(s: seq<int>, x: int)
    requires Distinct(s) && x in s
    ensures Without(s, x) == s[..FirstIndex(s, x)] + s[FirstIndex(s, x) + 1..]
  {
    if s[0] == x {
      assert x !in s[1..];
    } else {
      assert s[0] !in s[1..];
      WithoutKeepsOrder(s[1..], x);
      assert s[..FirstIndex(s, x)] == [s[0]] + s[1..][..FirstIndex(s[1..], x)];
      assert s[FirstIndex(s, x) + 1..] == s[1..][FirstIndex(s[1..], x) + 1..];
    }
  }

  /** `OrderedDict.move_to_end`. */
  function MoveToEnd(s: seq<int>, x: int): seq<int> {
    Without(s, x) + [x]
  }

  // ---------------------------------------------------------------------------
  // Invariants
  // ---------------------------------------------------------------------------

  /** The resident pages: `order` lists each key of the page table once, at most `frameCount` of them. */
  ghost predicate Resident(frameCount: nat, pageTable: map<int, nat>, order: seq<int>) {
    && frameCount >= 1
    && |order| <= frameCount
    && Distinct(order)
    && (forall p :: p in pageTable <==> p in order)
    && |pageTable| == |order|
  }

  /**
   * The page table and the frame table are inverse bijections between the
   * resident pages and the frames `0 .. |order|-1`.
   */
  ghost predicate Mapped(pageTable: map<int, nat>, order: seq<int>, frameTable: map<nat, Frame>) {
    && (forall f: nat :: f in frameTable <==> f < |order|)
    && (forall p :: p in pageTable ==>
          pageTable[p] in frameTable && frameTable[pageTable[p]].pageNum == p)
    && (forall f: nat :: f in frameTable ==>
          frameTable[f].pageNum in pageTable && pageTable[frameTable[f].pageNum] == f)
  }

  /** The dirty set is exactly the set of resident pages whose frame is dirty. */
  ghost predicate DirtyMatch(pageTable: map<int, nat>, frameTable: map<nat, Frame>, dirtyPages: set<int>) {
    forall p :: p in dirtyPages <==> p in pageTable && pageTable[p] in frameTable && frameTable[pageTable[p]].dirty
  }

  ghost predicate Tables(frameCount: nat, pageTable: map<int, nat>, order: seq<int>,
                         frameTable: map<nat, Frame>, dirtyPages: set<int>) {
    && Resident(frameCount, pageTable, order)
    && Mapped(pageTable, order, frameTable)
    && DirtyMatch(pageTable, frameTable, dirtyPages)
  }

  ghost predicate Directory(s: State) {
    Tables(s.frameCount, s.mem.pageTable, s.mem.pageOrder, s.mem.frameTable, s.mem.dirtyPages)
  }

  /** `q` lists each element of `order` exactly once. */
  ghost predicate SameElements(q: seq<int>, order: seq<int>) {
    Distinct(q) && forall p :: p in q <==> p in order
  }

  /** Only the chosen policy's structure is in use, and it lists the resident pages. */
  ghost predicate Queues(s: State) {
    && (if s.policy == FIFO then SameElements(s.fifoQueue, s.mem.pageOrder) else s.fifoQueue == [])
    && (if s.policy == LRU then SameElements(s.lruCache, s.mem.pageOrder) else s.lruCache == [])
    && (s.policy != OPT ==> s.lookahead == NoLookahead)
  }

  /**
   * Every access is a hit or a fault; every access is a read or a write; every
   * fault either filled a free frame or replaced a page; only a replacement
   * can write to disk; and replacements start only once the frames are full.
   */
  ghost predicate Counters(s: State) {
    && s.stats.hits + s.stats.pageFaults == s.stats.totalAccesses
    && s.stats.readCount + s.stats.writeCount == s.stats.totalAccesses
    && s.stats.pageFaults == |s.mem.pageOrder| + s.stats.replacements
    && s.stats.diskWrites <= s.stats.replacements
    && (s.stats.replacements > 0 ==> |s.mem.pageOrder| == s.frameCount)
  }

  ghost predicate Inv(s: State) {
    Directory(s) && Queues(s) && Counters(s)
  }

  /** A state in which the invariant holds. */
  type ValidState = s: State | Inv(s) witness Init(1, FIFO)

  /** A state whose tables and policy structures agree, which is what a lookup needs. */
  type Consistent = s: State | Directory(s) && Queues(s) witness Init(1, FIFO)

  lemma InitInv(frameCount: nat, policy: Policy)
    requires frameCount >= 1
    ensures Inv(Init(frameCount, policy))
  {}
  // ---------------------------------------------------------------------------
  // One access
  // ---------------------------------------------------------------------------

  /** `_update_opt_next_ref`. */
  function UpdateOptNextRef(s: State, page: int, pos: nat): State {
    s.(lookahead := Advance(s.lookahead, page, pos))
  }

  /** The hit branch of `simulate`. */
  function Hit(s: State, page: int, op: Op): State
    requires page in s.mem.pageTable && s.mem.pageTable[page] in s.mem.frameTable
  {
    var frame := s.mem.pageTable[page];
    var m := s.mem;
    s.(stats := s.stats.(hits := s.stats.hits + 1),
       lruCache := if s.policy == LRU then MoveToEnd(s.lruCache, page) else s.lruCache,
       mem := if op == W then m.(frameTable := m.frameTable[frame := m.frameTable[frame].(dirty := true)],
                                 dirtyPages := m.dirtyPages + {page})
              else m)
  }

  /**
   * `_select_victim_frame` (its position argument is unused there): FIFO pops
   * the head of its queue, LRU the front of its order, OPT scans the page
   * table. The frame returned is always one in use, and nothing but the
   * policy's queue changes.
   */
  function SelectVictimFrame(s: State): (r: (State, nat))
    requires Directory(s) && Queues(s) && |s.mem.pageTable| >= s.frameCount
    ensures r.1 in s.mem.frameTable
    ensures r.0 == s.(fifoQueue := r.0.fifoQueue, lruCache := r.0.lruCache)
  {
    assert s.mem.pageOrder[0] in s.mem.pageOrder;
    match s.policy
    case FIFO =>
      assert s.fifoQueue[0] in s.fifoQueue;
      (s.(fifoQueue := s.fifoQueue[1..]), s.mem.pageTable[s.fifoQueue[0]])
    case LRU =>
      assert s.lruCache[0] in s.lruCache;
      (s.(lruCache := s.lruCache[1..]), s.mem.pageTable[s.lruCache[0]])
    case OPT =>
      match OptVictim(s.mem.pageOrder, s.lookahead.nextRef)
      case Some(v) => (s, s.mem.pageTable[v])
      case None => (s, 0)
  }

  /** The choice of a victim does not look at the counters. */
  lemma SelectVictimIgnoresStats(s: State, st: Stats)
    requires Directory(s) && Queues(s) && |s.mem.pageTable| >= s.frameCount
    ensures Directory(s.(stats := st)) && Queues(s.(stats := st))
    ensures SelectVictimFrame(s.(stats := st)) == (SelectVictimFrame(s).0.(stats := st), SelectVictimFrame(s).1)
  {
  }

  /** The tail of `_handle_page_fault`: `page` moves into `frame`, dirty iff the access is a write. */
  function Install(s: State, page: int, op: Op, frame: nat): State {
    var m := s.mem;
    s.(mem := Memory(m.pageTable[page := frame],
                     if page in m.pageTable then m.pageOrder else m.pageOrder + [page],
                     m.frameTable[frame := Frame(page, op == W)],
                     if op == W then m.dirtyPages + {page} else m.dirtyPages),
       fifoQueue := if s.policy == FIFO then s.fifoQueue + [page] else s.fifoQueue,
       lruCache := if s.policy == LRU then (if page in s.lruCache then s.lruCache else s.lruCache + [page])
                   else s.lruCache)
  }

  /**
   * The victim in `frame` leaves: a disk write if its frame is dirty, and it
   * is removed from the page table, the dirty set and the LRU order.
   */
  function Evict(s: State, frame: nat): State
    requires frame in s.mem.frameTable
  {
    var m := s.mem;
    var victim := m.frameTable[frame].pageNum;
    s.(stats := s.stats.(diskWrites := if m.frameTable[frame].dirty then s.stats.diskWrites + 1
                                       else s.stats.diskWrites),
       mem := m.(pageTable := m.pageTable - {victim},
                 pageOrder := Without(m.pageOrder, victim),
                 dirtyPages := m.dirtyPages - {victim}),
       lruCache := if s.policy == LRU && victim in s.lruCache then Without(s.lruCache, victim)
                   else s.lruCache)
  }

  /**
   * The replacing half of `_handle_page_fault`: one more replacement, then a
   * victim is chosen and evicted; its frame is the one to reuse.
   */
  function MakeRoom(s: State): (State, nat)
    requires Directory(s) && Queues(s) && |s.mem.pageTable| >= s.frameCount
  {
    var (s1, frame) := SelectVictimFrame(s);
    (Evict(s1.(stats := s.stats.(replacements := s.stats.replacements + 1)), frame), frame)
  }

  /**
   * `_handle_page_fault`: while a frame is free the page goes into frame
   * `len(page_table)`; otherwise it goes into the frame `MakeRoom` frees.
   */
  function HandlePageFault(s: State, page: int, op: Op): State
    requires Directory(s) && Queues(s) && page !in s.mem.pageTable
  {
    if |s.mem.pageTable| < s.frameCount then Install(s, page, op, |s.mem.pageTable|)
    else Install(MakeRoom(s).0, page, op, MakeRoom(s).1)
  }

  /** `r` counts one more access than `s`, as a read or a write according to `op`. */
  ghost predicate Counted(s: State, r: State, op: Op) {
    && r.frameCount == s.frameCount && r.policy == s.policy
    && r.stats.totalAccesses == s.stats.totalAccesses + 1
    && r.stats.readCount == s.stats.readCount + (if op == R then 1 else 0)
    && r.stats.writeCount == s.stats.writeCount + (if op == W then 1 else 0)
  }

  /**
   * After an access to `page` the page is resident, nothing else became
   * resident, and the access counted as a fault exactly when the page was not.
   */
  ghost predicate Touched(s: State, r: State, page: int) {
    && page in r.mem.pageTable
    && (forall p :: p in r.mem.pageTable ==> p in s.mem.pageTable || p == page)
    && r.stats.pageFaults == s.stats.pageFaults + (if page in s.mem.pageTable then 0 else 1)
  }

  /** The bookkeeping `simulate` does before it looks the page up, including `_update_opt_next_ref`. */
  function Prepare(s: State, page: int, op: Op, pos: nat): (r: State)
    requires Inv(s)
    ensures Directory(r) && Queues(r) && Counted(s, r, op)
    ensures r.mem.pageTable == s.mem.pageTable && r.mem.pageOrder == s.mem.pageOrder && r.mem.frameTable == s.mem.frameTable
    ensures r.stats.hits == s.stats.hits && r.stats.pageFaults == s.stats.pageFaults
    ensures r.stats.replacements == s.stats.replacements && r.stats.diskWrites == s.stats.diskWrites
    ensures r.fifoQueue == s.fifoQueue && r.lruCache == s.lruCache
    ensures r.lookahead == if s.policy == OPT then Advance(s.lookahead, page, pos) else s.lookahead
  {
    var c := s.stats;
    var s1 := s.(stats := c.(totalAccesses := c.totalAccesses + 1,
                             readCount := if op == R then c.readCount + 1 else c.readCount,
                             writeCount := if op == W then c.writeCount + 1 else c.writeCount));
    if s.policy == OPT then UpdateOptNextRef(s1, page, pos) else s1
  }

  /** The body of `simulate`'s loop for the reference `(page, op)` at position `pos`. */
  function Access(s: State, page: int, op: Op, pos: nat): State
    requires Inv(s)
  {
    Lookup(Prepare(s, page, op, pos), page, op)
  }

  /** The page is looked up: a hit, or a fault counted and handled. */
  function Lookup(s: State, page: int, op: Op): State
    requires Directory(s) && Queues(s)
  {
    if page in s.mem.pageTable then Hit(s, page, op)
    else HandlePageFault(CountFault(s), page, op)
  }

  /** `self.page_faults += 1`. */
  function CountFault(s: State): State {
    s.(stats := s.stats.(pageFaults := s.stats.pageFaults + 1))
  }

  // ---------------------------------------------------------------------------
  // Table and queue steps
  // ---------------------------------------------------------------------------

  /** A write hit marks the page's frame dirty and adds the page to the dirty set. */
  lemma MarkDirtyKeepsTables(n: nat, pt: map<int, nat>, order: seq<int>, ft: map<nat, Frame>,
                             dp: set<int>, page: int)
    requires Tables(n, pt, order, ft, dp) && page in pt
    ensures Tables(n, pt, order, ft[pt[page] := ft[pt[page]].(dirty := true)], dp + {page})
  {
    var ft' := ft[pt[page] := ft[pt[page]].(dirty := true)];
    forall p | p in pt
      ensures ft'[pt[p]].pageNum == p
    {}
    forall p
      ensures p in dp + {page} <==> p in pt && pt[p] in ft' && ft'[pt[p]].dirty
    {
      if p in pt && p != page {
        assert ft[pt[p]].pageNum == p;
      }
    }
  }

  lemma AddKeepsResident(n: nat, pt: map<int, nat>, order: seq<int>, page: int, frame: nat)
    requires Resident(n, pt, order) && page !in pt && |order| < n
    ensures Resident(n, pt[page := frame], order + [page])
  {
    var order' := order + [page];
    forall i, j | 0 <= i < j < |order'|
      ensures order'[i] != order'[j]
    {
      if j == |order| {
        assert order[i] in order;
      }
    }
  }

  lemma AddKeepsMapped(pt: map<int, nat>, order: seq<int>, ft: map<nat, Frame>, page: int, dirty: bool)
    requires Mapped(pt, order, ft) && page !in pt
    ensures Mapped(pt[page := |order|], order + [page], ft[|order| := Frame(page, dirty)])
  {
    var k := |order|;
    var pt', ft' := pt[page := k], ft[k := Frame(page, dirty)];
    assert k !in ft;
    forall p | p in pt'
      ensures pt'[p] in ft' && ft'[pt'[p]].pageNum == p
    {
      if p != page {
        assert pt[p] < k;
      }
    }
  }

  lemma AddKeepsDirtyMatch(pt: map<int, nat>, ft: map<nat, Frame>, dp: set<int>, page: int,
                           frame: nat, dirty: bool)
    requires DirtyMatch(pt, ft, dp) && page !in pt && page !in dp && frame !in ft
    requires forall p :: p in pt ==> pt[p] in ft
    ensures DirtyMatch(pt[page := frame], ft[frame := Frame(page, dirty)], if dirty then dp + {page} else dp)
  {}

  /** Filling the first free frame with a new page. */
  lemma AddKeepsTables(n: nat, pt: map<int, nat>, order: seq<int>, ft: map<nat, Frame>,
                       dp: set<int>, page: int, dirty: bool)
    requires Tables(n, pt, order, ft, dp) && page !in pt && |order| < n
    ensures Tables(n, pt[page := |order|], order + [page], ft[|order| := Frame(page, dirty)],
                   if dirty then dp + {page} else dp)
  {
    AddKeepsResident(n, pt, order, page, |order|);
    AddKeepsMapped(pt, order, ft, page, dirty);
    assert |order| !in ft;
    AddKeepsDirtyMatch(pt, ft, dp, page, |order|, dirty);
  }

  lemma ReplaceKeepsResident(n: nat, pt: map<int, nat>, order: seq<int>, victim: int, page: int, frame: nat)
    requires Resident(n, pt, order) && victim in pt && page !in pt
    ensures Resident(n, (pt - {victim})[page := frame], Without(order, victim) + [page])
  {
    var rest := Without(order, victim);
    var order' := rest + [page];
    forall i, j | 0 <= i < j < |order'|
      ensures order'[i] != order'[j]
    {
      if j == |rest| {
        assert rest[i] in rest;
      }
    }
  }

  lemma ReplaceKeepsMapped(pt: map<int, nat>, order: seq<int>, ft: map<nat, Frame>, victim: int,
                           page: int, dirty: bool, order': seq<int>)
    requires Mapped(pt, order, ft) && victim in pt && page !in pt && |order'| == |order|
    ensures Mapped((pt - {victim})[page := pt[victim]], order', ft[pt[victim] := Frame(page, dirty)])
  {
    var frame := pt[victim];
    var pt', ft' := (pt - {victim})[page := frame], ft[frame := Frame(page, dirty)];
    forall p | p in pt'
      ensures pt'[p] in ft' && ft'[pt'[p]].pageNum == p
    {
      if p != page {
        assert ft[pt[p]].pageNum == p;
      }
    }
    forall f: nat | f in ft'
      ensures ft'[f].pageNum in pt' && pt'[ft'[f].pageNum] == f
    {
      if f != frame {
        assert ft[f].pageNum != victim;
      }
    }
  }

  lemma ReplaceKeepsDirtyMatch(pt: map<int, nat>, order: seq<int>, ft: map<nat, Frame>, dp: set<int>,
                               victim: int, page: int, dirty: bool)
    requires Mapped(pt, order, ft) && DirtyMatch(pt, ft, dp) && victim in pt && page !in pt
    ensures DirtyMatch((pt - {victim})[page := pt[victim]], ft[pt[victim] := Frame(page, dirty)],
                       if dirty then (dp - {victim}) + {page} else dp - {victim})
  {
    var frame := pt[victim];
    var pt', ft' := (pt - {victim})[page := frame], ft[frame := Frame(page, dirty)];
    forall p
      ensures p in (if dirty then (dp - {victim}) + {page} else dp - {victim})
              <==> p in pt' && pt'[p] in ft' && ft'[pt'[p]].dirty
    {
      if p in pt && p != victim {
        assert ft[pt[p]].pageNum == p;
      }
    }
  }

  /** Putting a new page into the frame of a resident victim, which leaves. */
  lemma ReplaceKeepsTables(n: nat, pt: map<int, nat>, order: seq<int>, ft: map<nat, Frame>,
                           dp: set<int>, victim: int, page: int, dirty: bool)
    requires Tables(n, pt, order, ft, dp) && victim in pt && page !in pt
    ensures Tables(n, (pt - {victim})[page := pt[victim]], Without(order, victim) + [page],
                   ft[pt[victim] := Frame(page, dirty)],
                   if dirty then (dp - {victim}) + {page} else dp - {victim})
  {
    ReplaceKeepsResident(n, pt, order, victim, page, pt[victim]);
    ReplaceKeepsMapped(pt, order, ft, victim, page, dirty, Without(order, victim) + [page]);
    ReplaceKeepsDirtyMatch(pt, order, ft, dp, victim, page, dirty);
  }

  lemma AppendKeepsSameElements(q: seq<int>, order: seq<int>, page: int)
    requires SameElements(q, order) && page !in order
    ensures SameElements(q + [page], order + [page])
  {
    forall i, j | 0 <= i < j < |q| + 1
      ensures (q + [page])[i] != (q + [page])[j]
    {
      if j == |q| {
        assert q[i] in q;
      }
    }
  }

  lemma MoveToEndKeepsSameElements(q: seq<int>, order: seq<int>, page: int)
    requires SameElements(q, order) && page in order
    ensures SameElements(MoveToEnd(q, page), order)
  {
    var rest := Without(q, page);
    forall i, j | 0 <= i < j < |rest| + 1
      ensures (rest + [page])[i] != (rest + [page])[j]
    {
      if j == |rest| {
        assert rest[i] in rest;
      }
    }
  }

  /** The head of the queue leaves, a new page joins at the back. */
  lemma PopAppendKeepsSameElements(q: seq<int>, order: seq<int>, page: int)
    requires SameElements(q, order) && q != [] && page !in order
    ensures SameElements(q[1..] + [page], Without(order, q[0]) + [page])
  {
    var tail := q[1..];
    assert q == [q[0]] + tail;
    assert q[0] !in tail;
    forall i, j | 0 <= i < j < |tail| + 1
      ensures (tail + [page])[i] != (tail + [page])[j]
    {
      if j == |tail| {
        assert tail[i] in q;
      }
    }
  }

  // ---------------------------------------------------------------------------
  // What each branch of an access does
  // ---------------------------------------------------------------------------

  /** `r` differs from `s` at most in the tables, the queues and the replacement counters. */
  ghost predicate SameRun(s: State, r: State) {
    && r.frameCount == s.frameCount && r.policy == s.policy
    && r.stats.hits == s.stats.hits && r.stats.pageFaults == s.stats.pageFaults && r.stats.totalAccesses == s.stats.totalAccesses
    && r.stats.readCount == s.stats.readCount && r.stats.writeCount == s.stats.writeCount
    && r.lookahead == s.lookahead
  }

  /**
   * The frames and dirty flags after a hit on `page`: a write sets that
   * page's dirty bit and adds it to the dirty set; every other frame entry,
   * and the rest of the dirty set, stay as they were.
   */
  ghost predicate DirtiedBy(m: Memory, m': Memory, page: int, op: Op)
    requires page in m.pageTable
  {
    var f := m.pageTable[page];
    && (forall g :: g in m'.frameTable <==> g in m.frameTable)
    && (forall g :: g in m.frameTable && g != f ==> m'.frameTable[g] == m.frameTable[g])
    && (f in m.frameTable ==> f in m'.frameTable && m'.frameTable[f].pageNum == m.frameTable[f].pageNum)
    && m'.dirtyPages == (if op == W then m.dirtyPages + {page} else m.dirtyPages)
  }

  /**
   * A hit leaves every page where it is, counts one hit, and leaves the
   * page's frame dirty iff it was dirty already or this access writes.
   */
  lemma HitOutcome(s: State, page: int, op: Op)
    requires Directory(s) && Queues(s) && page in s.mem.pageTable
    ensures var r := Hit(s, page, op);
      && Directory(r) && Queues(r)
      && r.mem.pageTable == s.mem.pageTable && r.mem.pageOrder == s.mem.pageOrder
      && r.mem.frameTable[r.mem.pageTable[page]].dirty == (s.mem.frameTable[s.mem.pageTable[page]].dirty || op == W)
      && DirtiedBy(s.mem, r.mem, page, op)
      && r.stats.hits == s.stats.hits + 1 && r.stats.replacements == s.stats.replacements && r.stats.diskWrites == s.stats.diskWrites
      && r.fifoQueue == s.fifoQueue && r.lookahead == s.lookahead
      && (s.policy == LRU ==> r.lruCache == MoveToEnd(s.lruCache, page))
  {
    var r := Hit(s, page, op);
    if op == W {
      MarkDirtyKeepsTables(s.frameCount, s.mem.pageTable, s.mem.pageOrder, s.mem.frameTable, s.mem.dirtyPages, page);
    }
    if s.policy == LRU {
      MoveToEndKeepsSameElements(s.lruCache, s.mem.pageOrder, page);
    }
  }

  /** While a frame is free, a fault puts the page into frame `len(page_table)` and replaces nothing. */
  lemma FillOutcome(s: State, page: int, op: Op)
    requires Directory(s) && Queues(s) && page !in s.mem.pageTable && |s.mem.pageTable| < s.frameCount
    ensures var r := HandlePageFault(s, page, op);
      && Directory(r) && Queues(r) && SameRun(s, r)
      && r.mem.pageTable == s.mem.pageTable[page := |s.mem.pageTable|]
      && r.mem.pageOrder == s.mem.pageOrder + [page]
      && r.mem.frameTable == s.mem.frameTable[|s.mem.pageTable| := Frame(page, op == W)]
      && r.mem.dirtyPages == (if op == W then s.mem.dirtyPages + {page} else s.mem.dirtyPages)
      && r.stats.replacements == s.stats.replacements && r.stats.diskWrites == s.stats.diskWrites
      && (s.policy == FIFO ==> r.fifoQueue == s.fifoQueue + [page])
      && (s.policy == LRU ==> r.lruCache == s.lruCache + [page])
  {
    var n := |s.mem.pageOrder|;
    AddKeepsTables(s.frameCount, s.mem.pageTable, s.mem.pageOrder, s.mem.frameTable, s.mem.dirtyPages, page, op == W);
    if s.policy == FIFO {
      AppendKeepsSameElements(s.fifoQueue, s.mem.pageOrder, page);
    }
    if s.policy == LRU {
      AppendKeepsSameElements(s.lruCache, s.mem.pageOrder, page);
    }
  }

  /** The resident page whose frame `_select_victim_frame` returns. */
  function Victim(s: State): (v: int)
    requires Directory(s) && Queues(s) && |s.mem.pageTable| >= s.frameCount
    ensures v in s.mem.pageTable && s.mem.pageTable[v] == SelectVictimFrame(s).1
  {
    s.mem.frameTable[SelectVictimFrame(s).1].pageNum
  }

  /** A queue listing the resident pages of a full memory has a head, and that head is resident. */
  lemma QueueHeadResident(q: seq<int>, order: seq<int>)
    requires SameElements(q, order) && order != []
    ensures q != [] && q[0] in order
  {
    var p := order[0];
    assert p in order;
    assert forall y :: y in q <==> y in order;
    assert p in q;
    assert q[0] in q;
  }

  /**
   * The victim is the head of the FIFO queue, the front of the LRU order, or
   * the page the OPT scan of the page table settles on.
   */
  lemma VictimByPolicy(s: State)
    requires Directory(s) && Queues(s) && |s.mem.pageTable| >= s.frameCount
    ensures s.policy == FIFO ==> s.fifoQueue != [] && Victim(s) == s.fifoQueue[0]
    ensures s.policy == LRU ==> s.lruCache != [] && Victim(s) == s.lruCache[0]
    ensures s.policy == OPT ==> OptVictim(s.mem.pageOrder, s.lookahead.nextRef) == Some(Victim(s))
  {
    assert s.mem.pageOrder[0] in s.mem.pageOrder;
    match s.policy
    case FIFO =>
      QueueHeadResident(s.fifoQueue, s.mem.pageOrder);
      var v := s.fifoQueue[0];
      assert v in s.fifoQueue && v in s.mem.pageTable;
      assert SelectVictimFrame(s).1 == s.mem.pageTable[v];
      assert s.mem.frameTable[s.mem.pageTable[v]].pageNum == v;
    case LRU =>
      QueueHeadResident(s.lruCache, s.mem.pageOrder);
      var v := s.lruCache[0];
      assert v in s.lruCache && v in s.mem.pageTable;
      assert SelectVictimFrame(s).1 == s.mem.pageTable[v];
      assert s.mem.frameTable[s.mem.pageTable[v]].pageNum == v;
    case OPT =>
      OptVictimIsFurthest(s.mem.pageOrder, s.lookahead.nextRef);
  }

  /** What an eviction writes, field by field. */
  lemma EvictFields(s: State, page: int, op: Op)
    requires Directory(s) && Queues(s) && page !in s.mem.pageTable && |s.mem.pageTable| >= s.frameCount
    ensures var r := HandlePageFault(s, page, op);
      var v := Victim(s);
      var m := s.mem;
      && SameRun(s, r)
      && r.mem == Memory((m.pageTable - {v})[page := m.pageTable[v]], Without(m.pageOrder, v) + [page],
                         m.frameTable[m.pageTable[v] := Frame(page, op == W)],
                         if op == W then (m.dirtyPages - {v}) + {page} else m.dirtyPages - {v})
      && r.stats.replacements == s.stats.replacements + 1
      && r.stats.diskWrites == s.stats.diskWrites + (if m.frameTable[m.pageTable[v]].dirty then 1 else 0)
      && r.fifoQueue == (if s.policy == FIFO then s.fifoQueue[1..] + [page] else s.fifoQueue)
      && r.lruCache == (if s.policy == LRU then s.lruCache[1..] + [page] else s.lruCache)
  {
    VictimByPolicy(s);
    if s.policy == LRU {
      assert s.lruCache == [s.lruCache[0]] + s.lruCache[1..];
      assert s.lruCache[0] !in s.lruCache[1..];
    }
  }

  /**
   * Once the frames are full, a fault evicts `Victim(s)`: one more
   * replacement, one more disk write iff the victim's frame is dirty, and the
   * new page takes over the victim's frame.
   */
  lemma EvictOutcome(s: State, page: int, op: Op)
    requires Directory(s) && Queues(s) && page !in s.mem.pageTable && |s.mem.pageTable| >= s.frameCount
    ensures var r := HandlePageFault(s, page, op);
      var v := Victim(s);
      && Directory(r) && Queues(r) && SameRun(s, r)
      && r.mem.pageTable == (s.mem.pageTable - {v})[page := s.mem.pageTable[v]]
      && r.mem.pageOrder == Without(s.mem.pageOrder, v) + [page]
      && r.mem.frameTable == s.mem.frameTable[s.mem.pageTable[v] := Frame(page, op == W)]
      && r.mem.dirtyPages == (if op == W then (s.mem.dirtyPages - {v}) + {page} else s.mem.dirtyPages - {v})
      && r.stats.replacements == s.stats.replacements + 1
      && r.stats.diskWrites == s.stats.diskWrites + (if s.mem.frameTable[s.mem.pageTable[v]].dirty then 1 else 0)
      && (s.policy == FIFO ==> r.fifoQueue == s.fifoQueue[1..] + [page])
      && (s.policy == LRU ==> r.lruCache == s.lruCache[1..] + [page])
  {
    EvictFields(s, page, op);
    VictimByPolicy(s);
    ReplaceKeepsTables(s.frameCount, s.mem.pageTable, s.mem.pageOrder, s.mem.frameTable, s.mem.dirtyPages,
                       Victim(s), page, op == W);
    if s.policy == FIFO {
      PopAppendKeepsSameElements(s.fifoQueue, s.mem.pageOrder, page);
    }
    if s.policy == LRU {
      PopAppendKeepsSameElements(s.lruCache, s.mem.pageOrder, page);
    }
  }

  // ---------------------------------------------------------------------------
  // Invariant preservation
  // ---------------------------------------------------------------------------

  /** A hit: one more hit, no page moves, and the page's frame is dirty iff it was or this access writes. */
  lemma AccessHit(s: State, page: int, op: Op, pos: nat)
    requires Inv(s) && page in s.mem.pageTable
    ensures var r := Access(s, page, op, pos);
      && Directory(r) && Queues(r) && Counted(s, r, op)
      && r.mem.pageTable == s.mem.pageTable && r.mem.pageOrder == s.mem.pageOrder
      && r.stats.hits == s.stats.hits + 1 && r.stats.pageFaults == s.stats.pageFaults
      && r.stats.replacements == s.stats.replacements && r.stats.diskWrites == s.stats.diskWrites
      && r.mem.frameTable[r.mem.pageTable[page]].dirty == (s.mem.frameTable[s.mem.pageTable[page]].dirty || op == W)
      && DirtiedBy(s.mem, r.mem, page, op)
      && r.fifoQueue == s.fifoQueue && r.lookahead == Prepare(s, page, op, pos).lookahead
      && (s.policy == LRU ==> r.lruCache == MoveToEnd(s.lruCache, page))
  {
    HitOutcome(Prepare(s, page, op, pos), page, op);
  }

  /** A fault while a frame is free: the page fills frame `len(page_table)`, nothing is replaced. */
  lemma AccessFill(s: State, page: int, op: Op, pos: nat)
    requires Inv(s) && page !in s.mem.pageTable && |s.mem.pageTable| < s.frameCount
    ensures var r := Access(s, page, op, pos);
      && Directory(r) && Queues(r) && Counted(s, r, op)
      && r.stats.hits == s.stats.hits && r.stats.pageFaults == s.stats.pageFaults + 1
      && r.stats.replacements == s.stats.replacements && r.stats.diskWrites == s.stats.diskWrites
      && r.mem.pageTable == s.mem.pageTable[page := |s.mem.pageTable|]
      && r.mem.pageOrder == s.mem.pageOrder + [page]
      && r.mem.frameTable == s.mem.frameTable[|s.mem.pageTable| := Frame(page, op == W)]
      && r.mem.dirtyPages == (if op == W then s.mem.dirtyPages + {page} else s.mem.dirtyPages)
      && r.lookahead == Prepare(s, page, op, pos).lookahead
      && (s.policy == FIFO ==> r.fifoQueue == s.fifoQueue + [page])
      && (s.policy == LRU ==> r.lruCache == s.lruCache + [page])
  {
    var s1 := Prepare(s, page, op, pos);
    FillOutcome(CountFault(s1), page, op);
  }

  /**
   * `r` is `s` after a fault that evicted `v` (chosen from `s1`, the state
   * after the bookkeeping of the access) to make room for `page`.
   */
  ghost predicate Evicted(s: State, s1: State, r: State, v: int, page: int, op: Op) {
    && v in s.mem.pageTable && s.mem.pageTable[v] in s.mem.frameTable
    && Counted(s, r, op)
    && r.stats.hits == s.stats.hits && r.stats.pageFaults == s.stats.pageFaults + 1
    && r.stats.replacements == s.stats.replacements + 1
    && r.stats.diskWrites == s.stats.diskWrites + (if s.mem.frameTable[s.mem.pageTable[v]].dirty then 1 else 0)
    && r.mem.pageTable == (s.mem.pageTable - {v})[page := s.mem.pageTable[v]]
    && r.mem.pageOrder == Without(s.mem.pageOrder, v) + [page]
    && r.mem.frameTable == s.mem.frameTable[s.mem.pageTable[v] := Frame(page, op == W)]
    && r.mem.dirtyPages == (if op == W then (s.mem.dirtyPages - {v}) + {page} else s.mem.dirtyPages - {v})
    && r.lookahead == s1.lookahead
    && (s.policy == FIFO ==> s.fifoQueue != [] && v == s.fifoQueue[0] && r.fifoQueue == s.fifoQueue[1..] + [page])
    && (s.policy == LRU ==> s.lruCache != [] && v == s.lruCache[0] && r.lruCache == s.lruCache[1..] + [page])
    && (s.policy == OPT ==> OptVictim(s.mem.pageOrder, s1.lookahead.nextRef) == Some(v))
  }

  /**
   * A fault with every frame in use: the victim's frame goes to the new
   * page, one more replacement, and one more disk write iff that frame was dirty.
   */
  lemma AccessEvict(s: State, page: int, op: Op, pos: nat)
    requires Inv(s) && page !in s.mem.pageTable && |s.mem.pageTable| >= s.frameCount
    ensures Directory(Access(s, page, op, pos)) && Queues(Access(s, page, op, pos))
    ensures Evicted(s, Prepare(s, page, op, pos), Access(s, page, op, pos), Victim(Prepare(s, page, op, pos)), page, op)
  {
    var s1 := Prepare(s, page, op, pos);
    var s2 := CountFault(s1);
    assert Access(s, page, op, pos) == HandlePageFault(s2, page, op);
    assert s2.mem == s.mem && s2.fifoQueue == s.fifoQueue && s2.lruCache == s.lruCache;
    EvictOutcome(s2, page, op);
    assert Victim(s2) == Victim(s1);
    VictimByPolicy(s1);
  }

  /** Every access keeps all the invariants. */
  lemma AccessPreservesInv(s: State, page: int, op: Op, pos: nat)
    requires Inv(s)
    ensures Inv(Access(s, page, op, pos)) && Counted(s, Access(s, page, op, pos), op)
    ensures Touched(s, Access(s, page, op, pos), page)
  {
    if page in s.mem.pageTable {
      AccessHit(s, page, op, pos);
    } else if |s.mem.pageTable| < s.frameCount {
      AccessFill(s, page, op, pos);
    } else {
      AccessEvict(s, page, op, pos);
    }
  }

  /** One iteration of `simulate`'s loop, with the invariants it keeps. */
  function Step(s: State, ref: Reference, pos: nat): (r: State)
    requires Inv(s)
    ensures Inv(r) && Counted(s, r, ref.op) && Touched(s, r, ref.page)
  {
    AccessPreservesInv(s, ref.page, ref.op, pos);
    Access(s, ref.page, ref.op, pos)
  }

  /**
   * `simulate` after its first `k` iterations: the references `refs[..k]`
   * replayed from `s`, the reference at index `i` carrying position `i`.
   */
  function Replay(s: State, refs: seq<Reference>, k: nat): (r: State)
    requires Inv(s) && k <= |refs|
    ensures Inv(r)
    ensures r.stats.totalAccesses == s.stats.totalAccesses + k
    ensures r.frameCount == s.frameCount && r.policy == s.policy
  {
    if k == 0 then s
    else
      Step(Replay(s, refs, k - 1), refs[k - 1], k - 1)
  }

  /** The state `load_trace_file` leaves: under OPT the lookahead of the whole trace. */
  function Start(frameCount: nat, policy: Policy, pages: seq<int>): (s: State)
    requires frameCount >= 1
    ensures Inv(s)
  {
    InitInv(frameCount, policy);
    var s := Init(frameCount, policy);
    if policy == OPT then s.(lookahead := Preprocess(pages)) else s
  }

  /** A replay from `__init__` counts every reference once, as a hit or as a fault. */
  lemma ReplayCounts(frameCount: nat, policy: Policy, refs: seq<Reference>)
    requires frameCount >= 1
    ensures var r := Replay(Start(frameCount, policy, Pages(refs)), refs, |refs|);
      && r.stats.hits + r.stats.pageFaults == |refs|
      && r.stats.readCount + r.stats.writeCount == |refs|
      && r.stats.replacements <= r.stats.pageFaults
      && r.stats.diskWrites <= r.stats.replacements
      && |r.mem.pageTable| <= frameCount
  {}
}
