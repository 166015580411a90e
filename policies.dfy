/**
 * What each replacement policy promises about the page it evicts, proved for
 * every replacement of a replay of a trace: FIFO evicts the page loaded
 * longest ago, LRU the resident page used least recently, OPT the resident
 * page whose next use lies furthest ahead (Belady's rule). Also: a replay
 * faults at least as often as the trace has distinct pages.
 */
module Policies {
  import opened Wrappers
  import opened Trace
  import opened OptIndex
  import opened Engine

  // ---------------------------------------------------------------------------
  // FIFO
  // ---------------------------------------------------------------------------

  /**
   * Under FIFO the queue is the key order of the page table, i.e. the
   * resident pages in the order they were loaded.
   */
  ghost predicate FifoOrder(s: State) {
    s.policy == FIFO ==> s.fifoQueue == s.mem.pageOrder
  }

  lemma WithoutHead(s: seq<int>)
    requires Distinct(s) && s != []
    ensures Without(s, s[0]) == s[1..]
  {
    forall j | 0 <= j < |s| - 1
      ensures s[1..][j] != s[0]
    {
      assert s[j + 1] != s[0];
    }
    assert s[0] !in s[1..];
  }

  lemma AccessKeepsFifoOrder(s: State, page: int, op: Op, pos: nat)
    requires Inv(s) && FifoOrder(s)
    ensures FifoOrder(Access(s, page, op, pos))
  {
    if page in s.mem.pageTable {
      AccessHit(s, page, op, pos);
    } else if |s.mem.pageTable| < s.frameCount {
      AccessFill(s, page, op, pos);
    } else {
      AccessEvict(s, page, op, pos);
      if s.policy == FIFO {
        WithoutHead(s.mem.pageOrder);
      }
    }
  }

  /** FIFO evicts the resident page loaded first; the others keep their order and the new page goes last. */
  lemma FifoEvictsOldest(s: State, page: int, op: Op, pos: nat)
    requires Inv(s) && FifoOrder(s) && s.policy == FIFO
    requires page !in s.mem.pageTable && |s.mem.pageTable| >= s.frameCount
    ensures s.mem.pageOrder != []
    ensures Victim(Prepare(s, page, op, pos)) == s.mem.pageOrder[0]
    ensures Access(s, page, op, pos).mem.pageOrder == s.mem.pageOrder[1..] + [page]
  {
    AccessEvict(s, page, op, pos);
    WithoutHead(s.mem.pageOrder);
  }

  // ---------------------------------------------------------------------------
  // LRU
  // ---------------------------------------------------------------------------

  /** The last position before `pos` at which `p` is referenced, or -1 if there is none. */
  function LastUse(pages: seq<int>, p: int, pos: nat): (t: int)
    requires pos <= |pages|
    ensures -1 <= t < pos
    ensures t >= 0 ==> pages[t] == p
  {
    if pos == 0 then -1
    else if pages[pos - 1] == p then pos - 1
    else LastUse(pages, p, pos - 1)
  }

  /** No reference to `p` lies between its last use and `pos`. */
  lemma {:induction false} LastUseIsLatest(pages: seq<int>, p: int, pos: nat, k: nat)
    requires pos <= |pages| && LastUse(pages, p, pos) < k < pos
    ensures pages[k] != p
  {
    if pages[pos - 1] != p && k < pos - 1 {
      LastUseIsLatest(pages, p, pos - 1, k);
    }
  }

  /** `q` lists pages from the least to the most recently used before position `pos`. */
  ghost predicate ByRecency(q: seq<int>, pages: seq<int>, pos: nat)
    requires pos <= |pages|
  {
    forall i, j :: 0 <= i < j < |q| ==> LastUse(pages, q[i], pos) < LastUse(pages, q[j], pos)
  }

  lemma {:induction false} WithoutKeepsByRecency(q: seq<int>, pages: seq<int>, pos: nat, x: int)
    requires pos <= |pages| && ByRecency(q, pages, pos)
    ensures ByRecency(Without(q, x), pages, pos)
  {
    if q != [] {
      var t := q[1..];
      assert ByRecency(t, pages, pos) by {
        forall i, j | 0 <= i < j < |t|
          ensures LastUse(pages, t[i], pos) < LastUse(pages, t[j], pos)
        {
          assert t[i] == q[i + 1] && t[j] == q[j + 1];
        }
      }
      WithoutKeepsByRecency(t, pages, pos, x);
      if q[0] != x {
        var rest := Without(t, x);
        assert Without(q, x) == [q[0]] + rest;
        forall j | 0 <= j < |rest|
          ensures LastUse(pages, q[0], pos) < LastUse(pages, rest[j], pos)
        {
          assert rest[j] in t;
          var m :| 0 <= m < |t| && t[m] == rest[j];
          assert q[m + 1] == rest[j];
        }
      }
    }
  }

  /** The page referenced at `pos` is the most recently used one at `pos + 1`. */
  lemma AppendLatest(q: seq<int>, pages: seq<int>, pos: nat)
    requires pos < |pages| && pages[pos] !in q && ByRecency(q, pages, pos)
    ensures ByRecency(q + [pages[pos]], pages, pos + 1)
  {
    forall i | 0 <= i < |q|
      ensures LastUse(pages, q[i], pos + 1) == LastUse(pages, q[i], pos)
    {
      assert q[i] in q;
    }
  }

  lemma TailKeepsByRecency(q: seq<int>, pages: seq<int>, pos: nat)
    requires pos <= |pages| && q != [] && ByRecency(q, pages, pos)
    ensures ByRecency(q[1..], pages, pos)
  {
    forall i, j | 0 <= i < j < |q| - 1
      ensures LastUse(pages, q[1..][i], pos) < LastUse(pages, q[1..][j], pos)
    {
      assert q[1..][i] == q[i + 1] && q[1..][j] == q[j + 1];
    }
  }

  /** Under LRU the order of `lru_cache` is the order of last use. */
  ghost predicate LruRecency(s: State, pages: seq<int>, pos: nat) {
    s.policy == LRU ==> pos <= |pages| && ByRecency(s.lruCache, pages, pos)
  }

  lemma HitKeepsLruRecency(s: State, pages: seq<int>, pos: nat, op: Op)
    requires Inv(s) && s.policy == LRU && pos < |pages| && ByRecency(s.lruCache, pages, pos)
    requires pages[pos] in s.mem.pageTable
    ensures ByRecency(Access(s, pages[pos], op, pos).lruCache, pages, pos + 1)
  {
    AccessHit(s, pages[pos], op, pos);
    WithoutKeepsByRecency(s.lruCache, pages, pos, pages[pos]);
    AppendLatest(Without(s.lruCache, pages[pos]), pages, pos);
  }

  lemma FillKeepsLruRecency(s: State, pages: seq<int>, pos: nat, op: Op)
    requires Inv(s) && s.policy == LRU && pos < |pages| && ByRecency(s.lruCache, pages, pos)
    requires pages[pos] !in s.mem.pageTable && |s.mem.pageTable| < s.frameCount
    ensures ByRecency(Access(s, pages[pos], op, pos).lruCache, pages, pos + 1)
  {
    AccessFill(s, pages[pos], op, pos);
    AppendLatest(s.lruCache, pages, pos);
  }

  lemma EvictKeepsLruRecency(s: State, pages: seq<int>, pos: nat, op: Op)
    requires Inv(s) && s.policy == LRU && pos < |pages| && ByRecency(s.lruCache, pages, pos)
    requires pages[pos] !in s.mem.pageTable && |s.mem.pageTable| >= s.frameCount
    ensures ByRecency(Access(s, pages[pos], op, pos).lruCache, pages, pos + 1)
  {
    AccessEvict(s, pages[pos], op, pos);
    TailKeepsByRecency(s.lruCache, pages, pos);
    assert s.lruCache == [s.lruCache[0]] + s.lruCache[1..];
    AppendLatest(s.lruCache[1..], pages, pos);
  }

  lemma AccessKeepsLruRecency(s: State, pages: seq<int>, pos: nat, op: Op)
    requires Inv(s) && pos < |pages| && LruRecency(s, pages, pos)
    ensures LruRecency(Access(s, pages[pos], op, pos), pages, pos + 1)
  {
    AccessPreservesInv(s, pages[pos], op, pos);
    if s.policy == LRU {
      if pages[pos] in s.mem.pageTable {
        HitKeepsLruRecency(s, pages, pos, op);
      } else if |s.mem.pageTable| < s.frameCount {
        FillKeepsLruRecency(s, pages, pos, op);
      } else {
        EvictKeepsLruRecency(s, pages, pos, op);
      }
    }
  }

  /** LRU evicts the resident page whose last use lies furthest back. */
  lemma LruEvictsLeastRecent(s: State, pages: seq<int>, pos: nat, op: Op)
    requires Inv(s) && s.policy == LRU && pos < |pages| && LruRecency(s, pages, pos)
    requires pages[pos] !in s.mem.pageTable && |s.mem.pageTable| >= s.frameCount
    ensures var v := Victim(Prepare(s, pages[pos], op, pos));
      && v in s.mem.pageTable
      && forall p :: p in s.mem.pageTable && p != v ==> LastUse(pages, v, pos) < LastUse(pages, p, pos)
  {
    var s1 := Prepare(s, pages[pos], op, pos);
    VictimByPolicy(s1);
    var v := Victim(s1);
    forall p | p in s.mem.pageTable && p != v
      ensures LastUse(pages, v, pos) < LastUse(pages, p, pos)
    {
      assert p in s.lruCache;
      var j :| 0 <= j < |s.lruCache| && s.lruCache[j] == p;
      assert j != 0;
    }
  }

  // ---------------------------------------------------------------------------
  // OPT
  // ---------------------------------------------------------------------------

  /** The next use at or after `pos` of each page of `order`, in that order. */
  function NextUses(order: seq<int>, pages: seq<int>, pos: nat): (uses: seq<Option<nat>>)
    requires pos <= |pages|
    ensures |uses| == |order|
  {
    seq(|order|, i requires 0 <= i < |order| => NextUse(pages, order[i], pos))
  }

  /** Under OPT the lookahead is current. */
  ghost predicate OptCursors(s: State, pages: seq<int>, pos: nat) {
    s.policy == OPT ==> CursorsAt(pages, pos, s.lookahead)
  }

  lemma AccessKeepsOptCursors(s: State, pages: seq<int>, pos: nat, op: Op)
    requires Inv(s) && pos < |pages| && OptCursors(s, pages, pos)
    ensures OptCursors(Access(s, pages[pos], op, pos), pages, pos + 1)
  {
    var page := pages[pos];
    if page in s.mem.pageTable {
      AccessHit(s, page, op, pos);
    } else if |s.mem.pageTable| < s.frameCount {
      AccessFill(s, page, op, pos);
    } else {
      AccessEvict(s, page, op, pos);
    }
    if s.policy == OPT {
      AdvanceCursors(pages, pos, s.lookahead);
    }
  }

  /**
   * OPT evicts by Belady's rule: a resident page never used again if there is
   * one, else the resident page used furthest ahead, judged from the
   * position after the current one.
   */
  lemma OptEvictsFurthest(s: State, pages: seq<int>, pos: nat, op: Op)
    requires Inv(s) && s.policy == OPT && pos < |pages| && OptCursors(s, pages, pos)
    requires pages[pos] !in s.mem.pageTable && |s.mem.pageTable| >= s.frameCount
    ensures exists k :: FurthestChoice(NextUses(s.mem.pageOrder, pages, pos + 1), k)
                     && Victim(Prepare(s, pages[pos], op, pos)) == s.mem.pageOrder[k]
  {
    var s1 := Prepare(s, pages[pos], op, pos);
    AdvanceCursors(pages, pos, s.lookahead);
    VictimByPolicy(s1);
    assert s.mem.pageOrder[0] in s.mem.pageOrder;
    OptVictimIsFurthest(s.mem.pageOrder, s1.lookahead.nextRef);
    var uses := UsesOf(s.mem.pageOrder, s1.lookahead.nextRef);
    forall i | 0 <= i < |s.mem.pageOrder|
      ensures uses[i] == NextUses(s.mem.pageOrder, pages, pos + 1)[i]
    {
      CursorIsNextUse(pages, pos + 1, s1.lookahead, s.mem.pageOrder[i]);
    }
    assert uses == NextUses(s.mem.pageOrder, pages, pos + 1);
  }

  // ---------------------------------------------------------------------------
  // Compulsory faults
  // ---------------------------------------------------------------------------

  /** Every resident page has been referenced before position `pos`. */
  ghost predicate ResidentReferenced(s: State, pages: seq<int>, pos: nat)
    requires pos <= |pages|
  {
    forall p :: p in s.mem.pageTable ==> LastUse(pages, p, pos) >= 0
  }

  /** The number of positions before `pos` that reference a page for the first time. */
  function FirstUses(pages: seq<int>, pos: nat): (n: nat)
    requires pos <= |pages|
    ensures n <= pos
  {
    if pos == 0 then 0
    else FirstUses(pages, pos - 1) + (if LastUse(pages, pages[pos - 1], pos - 1) < 0 then 1 else 0)
  }

  /** The distinct pages among the first `k` references. */
  function Seen(pages: seq<int>, k: nat): set<int>
    requires k <= |pages|
  {
    if k == 0 then {} else Seen(pages, k - 1) + {pages[k - 1]}
  }

  /** A page is among the first `k` references exactly when one of them references it. */
  lemma {:induction false} SeenIsReferenced(pages: seq<int>, k: nat, p: int)
    requires k <= |pages|
    ensures p in Seen(pages, k) <==> exists i :: 0 <= i < k && pages[i] == p
  {
    if k > 0 {
      SeenIsReferenced(pages, k - 1, p);
      if pages[k - 1] != p && exists i :: 0 <= i < k && pages[i] == p {
        var i :| 0 <= i < k && pages[i] == p;
        assert i < k - 1;
      }
    }
  }

  /** The pages seen before `pos` are those with a last use. */
  lemma {:induction false} SeenHasLastUse(pages: seq<int>, pos: nat, p: int)
    requires pos <= |pages|
    ensures p in Seen(pages, pos) <==> LastUse(pages, p, pos) >= 0
  {
    if pos > 0 {
      SeenHasLastUse(pages, pos - 1, p);
    }
  }

  /** A first use is exactly a reference to a page not seen before. */
  lemma {:induction false} FirstUsesCountSeen(pages: seq<int>, k: nat)
    requires k <= |pages|
    ensures FirstUses(pages, k) == |Seen(pages, k)|
  {
    if k > 0 {
      FirstUsesCountSeen(pages, k - 1);
      SeenHasLastUse(pages, k - 1, pages[k - 1]);
    }
  }

  /** An access keeps every resident page referenced, and faults on every first use. */
  lemma AccessKeepsReferenced(s: State, pages: seq<int>, pos: nat, op: Op)
    requires Inv(s) && pos < |pages| && ResidentReferenced(s, pages, pos)
    requires s.stats.pageFaults >= FirstUses(pages, pos)
    ensures ResidentReferenced(Access(s, pages[pos], op, pos), pages, pos + 1)
    ensures Access(s, pages[pos], op, pos).stats.pageFaults >= FirstUses(pages, pos + 1)
  {
    var page := pages[pos];
    AccessPreservesInv(s, page, op, pos);
    var r := Access(s, page, op, pos);
    forall p | p in r.mem.pageTable
      ensures LastUse(pages, p, pos + 1) >= 0
    {
      if p != page {
        assert p in s.mem.pageTable;
      }
    }
  }

  // ---------------------------------------------------------------------------
  // Whole replays
  // ---------------------------------------------------------------------------

  /** What a replay from `Start` keeps true at every position `pos`. */
  ghost predicate Tracked(s: State, pages: seq<int>, pos: nat)
    requires pos <= |pages|
  {
    && FifoOrder(s) && LruRecency(s, pages, pos) && OptCursors(s, pages, pos)
    && ResidentReferenced(s, pages, pos) && s.stats.pageFaults >= FirstUses(pages, pos)
  }

  lemma StartTracked(frameCount: nat, policy: Policy, pages: seq<int>)
    requires frameCount >= 1
    ensures Tracked(Start(frameCount, policy, pages), pages, 0)
  {
    if policy == OPT {
      PreprocessCursors(pages);
    }
  }

  /** The step from position `k - 1` to `k`, phrased as `Replay` unfolds. */
  lemma StepTracked(s: State, refs: seq<Reference>, k: nat)
    requires Inv(s) && 0 < k <= |refs| && Tracked(s, Pages(refs), k - 1)
    ensures Tracked(Step(s, refs[k - 1], k - 1), Pages(refs), k)
  {
    assert Pages(refs)[k - 1] == refs[k - 1].page;
    AccessKeepsFifoOrder(s, refs[k - 1].page, refs[k - 1].op, k - 1);
    AccessKeepsLruRecency(s, Pages(refs), k - 1, refs[k - 1].op);
    AccessKeepsOptCursors(s, Pages(refs), k - 1, refs[k - 1].op);
    AccessKeepsReferenced(s, Pages(refs), k - 1, refs[k - 1].op);
  }

  /**
   * The state of a replay of `refs` from `__init__` and `load_trace_file`
   * after `k` references, built step by step so that `Tracked` rides along.
   */
  function Run(frameCount: nat, policy: Policy, refs: seq<Reference>, k: nat): (s: State)
    requires frameCount >= 1 && k <= |refs|
    ensures s.frameCount == frameCount && s.policy == policy
    ensures Inv(s) && Tracked(s, Pages(refs), k)
  {
    if k == 0 then
      StartTracked(frameCount, policy, Pages(refs));
      Start(frameCount, policy, Pages(refs))
    else
      StepTracked(Run(frameCount, policy, refs, k - 1), refs, k);
      Step(Run(frameCount, policy, refs, k - 1), refs[k - 1], k - 1)
  }

  /** The `k`-th reference of a run is one more access. */
  lemma RunStep(frameCount: nat, policy: Policy, refs: seq<Reference>, k: nat)
    requires frameCount >= 1 && 0 < k <= |refs|
    ensures Inv(Run(frameCount, policy, refs, k - 1))
    ensures Run(frameCount, policy, refs, k)
         == Access(Run(frameCount, policy, refs, k - 1), refs[k - 1].page, refs[k - 1].op, k - 1)
  {
  }

  /** `Run` is the replay `simulate` performs after `load_trace_file`. */
  lemma {:induction false} RunIsReplay(frameCount: nat, policy: Policy, refs: seq<Reference>, k: nat)
    requires frameCount >= 1 && k <= |refs|
    ensures Run(frameCount, policy, refs, k) == Replay(Start(frameCount, policy, Pages(refs)), refs, k)
  {
    if k > 0 {
      RunIsReplay(frameCount, policy, refs, k - 1);
      assert Run(frameCount, policy, refs, k) == Step(Run(frameCount, policy, refs, k - 1), refs[k - 1], k - 1);
    }
  }

  /**
   * A replay that reached position `k` has faulted at least as often as the
   * first `k` references have distinct pages (`Run` keeps `Tracked`).
   */
  lemma CompulsoryFaults(s: State, pages: seq<int>, k: nat)
    requires k <= |pages| && Tracked(s, pages, k)
    ensures s.stats.pageFaults >= |Seen(pages, k)|
  {
    FirstUsesCountSeen(pages, k);
  }

  // ---------------------------------------------------------------------------
  // FIFO against the textbook algorithm
  // ---------------------------------------------------------------------------

  /**
   * Textbook FIFO with `n` frames holding `q`, oldest load first: a reference
   * to `p` changes nothing if `p` is resident, fills a free frame otherwise,
   * and with every frame taken drops the oldest page.
   */
  function FifoLoad(q: seq<int>, n: nat, p: int): (r: seq<int>)
    requires 1 <= n && |q| <= n
    ensures |r| <= n && p in r
    ensures forall x :: x in r ==> x in q || x == p
  {
    if p in q then q else if |q| < n then q + [p] else q[1..] + [p]
  }

  /** Textbook FIFO after the first `k` references of `pages`. */
  function FifoFrames(pages: seq<int>, n: nat, k: nat): (q: seq<int>)
    requires 1 <= n && k <= |pages|
    ensures |q| <= n
  {
    if k == 0 then [] else FifoLoad(FifoFrames(pages, n, k - 1), n, pages[k - 1])
  }

  /** The faults of textbook FIFO over the first `k` references: one per reference to a page not held. */
  function FifoFaults(pages: seq<int>, n: nat, k: nat): (f: nat)
    requires 1 <= n && k <= |pages|
    ensures f <= k
  {
    if k == 0 then 0
    else FifoFaults(pages, n, k - 1) + if pages[k - 1] in FifoFrames(pages, n, k - 1) then 0 else 1
  }

  /** One access under FIFO is one step of textbook FIFO on the page table's key order. */
  lemma FifoAccess(s: State, page: int, op: Op, pos: nat)
    requires Inv(s) && FifoOrder(s) && s.policy == FIFO
    ensures |s.mem.pageOrder| <= s.frameCount
    ensures Access(s, page, op, pos).mem.pageOrder == FifoLoad(s.mem.pageOrder, s.frameCount, page)
    ensures Access(s, page, op, pos).stats.pageFaults
         == s.stats.pageFaults + if page in s.mem.pageOrder then 0 else 1
  {
    if page in s.mem.pageTable {
      AccessHit(s, page, op, pos);
    } else if |s.mem.pageTable| < s.frameCount {
      AccessFill(s, page, op, pos);
    } else {
      AccessEvict(s, page, op, pos);
      FifoEvictsOldest(s, page, op, pos);
    }
  }

  /** One more reference, as textbook FIFO counts it. */
  lemma FifoStep(pages: seq<int>, n: nat, k: nat, q: seq<int>, f: nat, q': seq<int>, f': nat)
    requires 1 <= n && 0 < k <= |pages|
    requires q == FifoFrames(pages, n, k - 1) && f == FifoFaults(pages, n, k - 1)
    requires q' == FifoLoad(q, n, pages[k - 1]) && f' == f + if pages[k - 1] in q then 0 else 1
    ensures q' == FifoFrames(pages, n, k) && f' == FifoFaults(pages, n, k)
  {
  }

  /**
   * A FIFO replay holds exactly the pages textbook FIFO holds, in the same
   * order, and has faulted exactly as often.
   */
  lemma {:induction false} RunIsTextbookFifo(frameCount: nat, refs: seq<Reference>, k: nat)
    requires frameCount >= 1 && k <= |refs|
    ensures Run(frameCount, FIFO, refs, k).mem.pageOrder == FifoFrames(Pages(refs), frameCount, k)
    ensures Run(frameCount, FIFO, refs, k).stats.pageFaults == FifoFaults(Pages(refs), frameCount, k)
  {
    if k > 0 {
      RunIsTextbookFifo(frameCount, refs, k - 1);
      var s := Run(frameCount, FIFO, refs, k - 1);
      var ref := refs[k - 1];
      assert Pages(refs)[k - 1] == ref.page;
      RunStep(frameCount, FIFO, refs, k);
      FifoAccess(s, ref.page, ref.op, k - 1);
      var r := Run(frameCount, FIFO, refs, k);
      FifoStep(Pages(refs), frameCount, k, s.mem.pageOrder, s.stats.pageFaults, r.mem.pageOrder, r.stats.pageFaults);
    }
  }

  // ---------------------------------------------------------------------------
  // Belady's anomaly under FIFO
  // ---------------------------------------------------------------------------

  /** The classic trace on which FIFO faults more with more frames. */
  const AnomalyPages: seq<int> := [1, 2, 3, 4, 1, 2, 5, 1, 2, 3, 4, 5]

  /** The trace as read references. */
  function AnomalyTrace(): (refs: seq<Reference>)
    ensures |refs| == 12 && Pages(refs) == AnomalyPages
  {
    var refs := seq(|AnomalyPages|, i requires 0 <= i < |AnomalyPages| => Reference(AnomalyPages[i], R));
    assert Pages(refs) == AnomalyPages;
    refs
  }

  /** Textbook FIFO on the trace, three references at a time. */
  lemma ThreeFramesAfter3()
    ensures FifoFrames(AnomalyPages, 3, 3) == [1, 2, 3] && FifoFaults(AnomalyPages, 3, 3) == 3
  {
    assert FifoFrames(AnomalyPages, 3, 1) == [1];
    assert FifoFrames(AnomalyPages, 3, 2) == [1, 2];
  }

  lemma ThreeFramesAfter6()
    ensures FifoFrames(AnomalyPages, 3, 6) == [4, 1, 2] && FifoFaults(AnomalyPages, 3, 6) == 6
  {
    ThreeFramesAfter3();
    assert FifoFrames(AnomalyPages, 3, 4) == [2, 3, 4];
    assert FifoFrames(AnomalyPages, 3, 5) == [3, 4, 1];
  }

  lemma ThreeFramesAfter9()
    ensures FifoFrames(AnomalyPages, 3, 9) == [1, 2, 5] && FifoFaults(AnomalyPages, 3, 9) == 7
  {
    ThreeFramesAfter6();
    assert FifoFrames(AnomalyPages, 3, 7) == [1, 2, 5];
    assert FifoFrames(AnomalyPages, 3, 8) == [1, 2, 5];
  }

  /** With 3 frames textbook FIFO faults 9 times on the trace. */
  lemma ThreeFramesFaults()
    ensures FifoFaults(AnomalyPages, 3, 12) == 9
  {
    ThreeFramesAfter9();
    assert FifoFrames(AnomalyPages, 3, 10) == [2, 5, 3];
    assert FifoFrames(AnomalyPages, 3, 11) == [5, 3, 4];
  }

  lemma FourFramesAfter3()
    ensures FifoFrames(AnomalyPages, 4, 3) == [1, 2, 3] && FifoFaults(AnomalyPages, 4, 3) == 3
  {
    assert FifoFrames(AnomalyPages, 4, 1) == [1];
    assert FifoFrames(AnomalyPages, 4, 2) == [1, 2];
  }

  lemma FourFramesAfter6()
    ensures FifoFrames(AnomalyPages, 4, 6) == [1, 2, 3, 4] && FifoFaults(AnomalyPages, 4, 6) == 4
  {
    FourFramesAfter3();
    assert FifoFrames(AnomalyPages, 4, 4) == [1, 2, 3, 4];
    assert FifoFrames(AnomalyPages, 4, 5) == [1, 2, 3, 4];
  }

  lemma FourFramesAfter9()
    ensures FifoFrames(AnomalyPages, 4, 9) == [4, 5, 1, 2] && FifoFaults(AnomalyPages, 4, 9) == 7
  {
    FourFramesAfter6();
    assert FifoFrames(AnomalyPages, 4, 7) == [2, 3, 4, 5];
    assert FifoFrames(AnomalyPages, 4, 8) == [3, 4, 5, 1];
  }

  /** With 4 frames textbook FIFO faults 10 times on the trace. */
  lemma FourFramesFaults()
    ensures FifoFaults(AnomalyPages, 4, 12) == 10
  {
    FourFramesAfter9();
    assert FifoFrames(AnomalyPages, 4, 10) == [5, 1, 2, 3];
    assert FifoFrames(AnomalyPages, 4, 11) == [1, 2, 3, 4];
  }

  /** Replaying the trace under FIFO with 3 frames faults 9 times. */
  lemma ThreeFramesRun()
    ensures Run(3, FIFO, AnomalyTrace(), 12).stats.pageFaults == 9
  {
    RunIsTextbookFifo(3, AnomalyTrace(), 12);
    ThreeFramesFaults();
  }

  /**
   * Replaying the trace under FIFO with 4 frames faults 10 times: one frame
   * more than `ThreeFramesRun`, one fault more (Belady's anomaly).
   */
  lemma FourFramesRun()
    ensures Run(4, FIFO, AnomalyTrace(), 12).stats.pageFaults == 10
  {
    RunIsTextbookFifo(4, AnomalyTrace(), 12);
    FourFramesFaults();
  }
}
