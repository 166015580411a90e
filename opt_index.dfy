/**
 * The lookahead index of the optimal (Belady) policy: for every page, the
 * positions at which the trace references it, consumed from the smallest up,
 * and a cursor `next_ref[page]` holding the next unconsumed one.
 */
module OptIndex {
  import opened Wrappers
  import opened Trace

  predicate Ascending(s: seq<nat>) {
    forall i, j :: 0 <= i < j < |s| ==> s[i] < s[j]
  }

  /** The positions `j >= lo` at which `pages` references `p`, smallest first. */
  function PositionsFrom(pages: seq<int>, p: int, lo: nat): (r: seq<nat>)
    requires lo <= |pages|
    ensures forall k :: 0 <= k < |r| ==> lo <= r[k] < |pages| && pages[r[k]] == p
    decreases |pages| - lo
  {
    if lo == |pages| then []
    else if pages[lo] == p then [lo] + PositionsFrom(pages, p, lo + 1)
    else PositionsFrom(pages, p, lo + 1)
  }

  /** Every reference of `p` from `lo` on is listed. */
  lemma {:induction false} PositionsComplete(pages: seq<int>, p: int, lo: nat, j: nat)
    requires lo <= j < |pages| && pages[j] == p
    ensures j in PositionsFrom(pages, p, lo)
    decreases |pages| - lo
  {
    if lo < j {
      PositionsComplete(pages, p, lo + 1, j);
    }
  }

  /** The positions come out smallest first, as from a min-heap. */
  lemma {:induction false} PositionsAscending(pages: seq<int>, p: int, lo: nat)
    requires lo <= |pages|
    ensures Ascending(PositionsFrom(pages, p, lo))
    decreases |pages| - lo
  {
    if lo < |pages| {
      PositionsAscending(pages, p, lo + 1);
    }
  }

  /**
   * The first position at or after `pos` at which `pages` references `p`, or
   * None when `p` is never referenced again.
   */
  function NextUse(pages: seq<int>, p: int, pos: nat): (r: Option<nat>)
    requires pos <= |pages|
    ensures r.Some? ==> pos <= r.value < |pages| && pages[r.value] == p
    decreases |pages| - pos
  {
    if pos == |pages| then None
    else if pages[pos] == p then Some(pos)
    else NextUse(pages, p, pos + 1)
  }

  /** No reference of `p` at or after `pos` comes before its next use. */
  lemma {:induction false} NextUseIsFirst(pages: seq<int>, p: int, pos: nat, k: nat)
    requires pos <= k < |pages| && pages[k] == p
    ensures NextUse(pages, p, pos).Some? && NextUse(pages, p, pos).value <= k
    decreases |pages| - pos
  {
    if pages[pos] != p {
      NextUseIsFirst(pages, p, pos + 1, k);
    }
  }

  /** The next use is the smallest listed position. */
  lemma {:induction false} NextUseIsFirstPosition(pages: seq<int>, p: int, pos: nat)
    requires pos <= |pages|
    ensures NextUse(pages, p, pos)
         == if PositionsFrom(pages, p, pos) == [] then None else Some(PositionsFrom(pages, p, pos)[0])
    decreases |pages| - pos
  {
    if pos < |pages| && pages[pos] != p {
      NextUseIsFirstPosition(pages, p, pos + 1);
    }
  }

  /** Popping the smallest position leaves the positions after it. */
  lemma {:induction false} PositionsAfterFirst(pages: seq<int>, p: int, lo: nat)
    requires lo <= |pages| && PositionsFrom(pages, p, lo) != []
    ensures PositionsFrom(pages, p, lo)[1..] == PositionsFrom(pages, p, PositionsFrom(pages, p, lo)[0] + 1)
    decreases |pages| - lo
  {
    if pages[lo] != p {
      PositionsAfterFirst(pages, p, lo + 1);
    }
  }

  /**
   * `opt_future_refs` (the min-heap of remaining positions of each page) and
   * `next_ref` (the cursor of each page).
   */
  datatype Lookahead = Lookahead(futureRefs: map<int, seq<nat>>, nextRef: map<int, Option<nat>>)

  const NoLookahead := Lookahead(map[], map[])

  /**
   * `page_positions` once the first loop of `_preprocess_opt_references` has
   * seen `pages`: every page with the list of its positions. The list is
   * ascending already, so `heapify` leaves its order alone.
   */
  function Gather(pages: seq<int>): map<int, seq<nat>> {
    map p | p in pages :: PositionsFrom(pages, p, 0)
  }

  /** A page that does not occur has no positions. */
  lemma {:induction false} PositionsOfAbsent(pages: seq<int>, p: int, lo: nat)
    requires lo <= |pages| && p !in pages
    ensures PositionsFrom(pages, p, lo) == []
    decreases |pages| - lo
  {
    if lo < |pages| {
      assert pages[lo] in pages;
      PositionsOfAbsent(pages, p, lo + 1);
    }
  }

  /** One more reference adds at most its own position, at the end. */
  lemma {:induction false} PositionsAppend(s: seq<int>, x: int, p: int, lo: nat)
    requires lo <= |s|
    ensures PositionsFrom(s + [x], p, lo) == PositionsFrom(s, p, lo) + (if x == p then [|s|] else [])
    decreases |s| - lo
  {
    if lo < |s| {
      assert (s + [x])[lo] == s[lo];
      PositionsAppend(s, x, p, lo + 1);
    } else {
      assert (s + [x])[lo] == x;
    }
  }

  /** The first loop of preprocessing appends position `i` to the list of `pages[i]`. */
  lemma GatherStep(pages: seq<int>, i: nat)
    requires i < |pages|
    ensures Gather(pages[..i + 1])
         == Gather(pages[..i])[pages[i] := (if pages[i] in Gather(pages[..i]) then Gather(pages[..i])[pages[i]] else []) + [i]]
  {
    var s := pages[..i];
    var x := pages[i];
    assert pages[..i + 1] == s + [x];
    var g := Gather(s);
    var upd := g[x := (if x in g then g[x] else []) + [i]];
    if x !in s {
      PositionsOfAbsent(s, x, 0);
    }
    forall p ensures p in Gather(s + [x]) <==> p in upd {
      assert p in s + [x] <==> p in s || p == x;
    }
    forall p | p in upd
      ensures Gather(s + [x])[p] == upd[p]
    {
      PositionsAppend(s, x, p, 0);
    }
    assert Gather(s + [x]) == upd;
  }

  /** `page_positions` after the first `i` turns of the gathering loop, one turn at a time. */
  function GatherPrefix(pages: seq<int>, i: nat): map<int, seq<nat>>
    requires i <= |pages|
  {
    if i == 0 then map[]
    else
      var g := GatherPrefix(pages, i - 1);
      var x := pages[i - 1];
      g[x := (if x in g then g[x] else []) + [i - 1]]
  }

  /** Turn by turn, the loop builds `Gather` of the prefix it has seen. */
  lemma {:induction false} GatherPrefixIsGather(pages: seq<int>, i: nat)
    requires i <= |pages|
    ensures GatherPrefix(pages, i) == Gather(pages[..i])
  {
    if i == 0 {
      assert pages[..0] == [];
    } else {
      GatherPrefixIsGather(pages, i - 1);
      GatherStep(pages, i - 1);
    }
  }

  /** `heappop` when the heap is not empty; an empty heap stays empty. */
  function Pop(heap: seq<nat>): seq<nat> {
    if heap == [] then [] else heap[1..]
  }

  /** The second loop: every non-empty heap gives its smallest position to `next_ref`. */
  function PopFirst(heaps: map<int, seq<nat>>): Lookahead {
    Lookahead(
      map p | p in heaps :: Pop(heaps[p]),
      map p | p in heaps && heaps[p] != [] :: Some(heaps[p][0]))
  }

  /** The second loop of preprocessing with the pages of `todo` still to pop. */
  function PopFirstExcept(heaps: map<int, seq<nat>>, todo: set<int>): Lookahead {
    Lookahead(
      map p | p in heaps :: if p in todo then heaps[p] else Pop(heaps[p]),
      map p | p in heaps && p !in todo && heaps[p] != [] :: Some(heaps[p][0]))
  }

  lemma PopFirstExceptBounds(heaps: map<int, seq<nat>>)
    ensures PopFirstExcept(heaps, heaps.Keys) == Lookahead(heaps, map[])
    ensures PopFirstExcept(heaps, {}) == PopFirst(heaps)
  {
    var l := PopFirstExcept(heaps, heaps.Keys);
    assert l.futureRefs == heaps;
    assert l.nextRef == map[];
  }

  /** Popping the heap of one more page `p`. */
  lemma PopFirstExceptStep(heaps: map<int, seq<nat>>, todo: set<int>, p: int)
    requires p in todo && p in heaps
    ensures var l := PopFirstExcept(heaps, todo);
      PopFirstExcept(heaps, todo - {p})
      == if l.futureRefs[p] != [] then
           Lookahead(l.futureRefs[p := l.futureRefs[p][1..]], l.nextRef[p := Some(l.futureRefs[p][0])])
         else l
  {
    var l := PopFirstExcept(heaps, todo);
    var l' := PopFirstExcept(heaps, todo - {p});
    if heaps[p] != [] {
      assert l'.futureRefs == l.futureRefs[p := heaps[p][1..]];
      assert l'.nextRef == l.nextRef[p := Some(heaps[p][0])];
    } else {
      assert l'.futureRefs == l.futureRefs;
      assert l'.nextRef == l.nextRef;
    }
  }

  /** One turn of that loop: a non-empty heap of `p` pops into `next_ref`. */
  function PopOne(l: Lookahead, p: int): Lookahead {
    if p in l.futureRefs && l.futureRefs[p] != [] then
      Lookahead(l.futureRefs[p := l.futureRefs[p][1..]], l.nextRef[p := Some(l.futureRefs[p][0])])
    else l
  }

  /** The turns of the loop for the pages of `keys`, in that order. */
  function PopEach(l: Lookahead, keys: seq<int>): Lookahead
    decreases |keys|
  {
    if keys == [] then l else PopEach(PopOne(l, keys[0]), keys[1..])
  }

  /**
   * Visiting each page still to pop exactly once, in any order, pops every
   * heap once.
   */
  lemma {:induction false} PopEachPopsAll(heaps: map<int, seq<nat>>, todo: set<int>, keys: seq<int>)
    requires Distinct(keys) && todo <= heaps.Keys
    requires forall q :: q in todo <==> q in keys
    ensures PopEach(PopFirstExcept(heaps, todo), keys) == PopFirst(heaps)
    decreases |keys|
  {
    if keys == [] {
      assert todo == {} by {
        forall q | q in todo
          ensures false
        {
        }
      }
      PopFirstExceptBounds(heaps);
    } else {
      var p := keys[0];
      PopFirstExceptStep(heaps, todo, p);
      assert PopOne(PopFirstExcept(heaps, todo), p) == PopFirstExcept(heaps, todo - {p});
      assert forall q :: q in todo - {p} <==> q in keys[1..] by {
        assert keys == [p] + keys[1..];
        assert p !in keys[1..];
      }
      PopEachPopsAll(heaps, todo - {p}, keys[1..]);
    }
  }

  /** `_preprocess_opt_references` on a fresh simulator. */
  function Preprocess(pages: seq<int>): Lookahead {
    PopFirst(Gather(pages))
  }

  /**
   * `_update_opt_next_ref`: when position `pos` consumes the cursor of `page`,
   * the cursor moves to the page's next position, or to None if none is left.
   */
  function Advance(l: Lookahead, page: int, pos: nat): Lookahead {
    if page in l.nextRef && l.nextRef[page] == Some(pos) then
      if page in l.futureRefs && |l.futureRefs[page]| > 0 then
        Lookahead(
          l.futureRefs[page := l.futureRefs[page][1..]],
          l.nextRef[page := Some(l.futureRefs[page][0])])
      else
        l.(nextRef := l.nextRef[page := None])
    else l
  }

  /** What is left in a page's heap once its cursor stands at `cursor`. */
  function Remaining(pages: seq<int>, p: int, cursor: Option<nat>): seq<nat> {
    match cursor
    case None => []
    case Some(k) => if k < |pages| then PositionsFrom(pages, p, k + 1) else []
  }

  /**
   * The lookahead is current at position `pos` of the trace: every page of
   * the trace has a cursor on its first reference at or after `pos` (None if
   * there is none), and its heap holds exactly the references after that one.
   */
  ghost predicate CursorsAt(pages: seq<int>, pos: nat, l: Lookahead) {
    && pos <= |pages|
    && (forall p :: p in l.nextRef <==> p in pages)
    && (forall p :: p in l.futureRefs <==> p in pages)
    && (forall p {:trigger l.nextRef[p]} :: p in l.nextRef ==>
          l.nextRef[p] == NextUse(pages, p, pos) && l.futureRefs[p] == Remaining(pages, p, l.nextRef[p]))
  }

  lemma PreprocessCursorOf(pages: seq<int>, p: int)
    requires p in pages
    ensures p in Preprocess(pages).nextRef
    ensures Preprocess(pages).nextRef[p] == NextUse(pages, p, 0)
    ensures Preprocess(pages).futureRefs[p] == Remaining(pages, p, NextUse(pages, p, 0))
  {
    var k :| 0 <= k < |pages| && pages[k] == p;
    PositionsComplete(pages, p, 0, k);
    NextUseIsFirstPosition(pages, p, 0);
    PositionsAfterFirst(pages, p, 0);
  }

  /** Preprocessing puts every cursor on the page's first reference. */
  lemma PreprocessCursors(pages: seq<int>)
    ensures CursorsAt(pages, 0, Preprocess(pages))
  {
    var l := Preprocess(pages);
    forall p | p in pages
      ensures p in l.nextRef && l.nextRef[p] == NextUse(pages, p, 0)
      ensures l.futureRefs[p] == Remaining(pages, p, l.nextRef[p])
    {
      PreprocessCursorOf(pages, p);
    }
  }

  /** Replaying position `pos` moves the cursor of the page referenced there to its next use. */
  lemma AdvanceCursorOfAccessedPage(pages: seq<int>, pos: nat, l: Lookahead)
    requires pos < |pages| && CursorsAt(pages, pos, l)
    ensures pages[pos] in Advance(l, pages[pos], pos).nextRef
    ensures Advance(l, pages[pos], pos).nextRef[pages[pos]] == NextUse(pages, pages[pos], pos + 1)
    ensures Advance(l, pages[pos], pos).futureRefs[pages[pos]]
         == Remaining(pages, pages[pos], NextUse(pages, pages[pos], pos + 1))
  {
    var x := pages[pos];
    var rest := PositionsFrom(pages, x, pos + 1);
    assert x in pages;
    assert l.nextRef[x] == Some(pos);
    assert l.futureRefs[x] == rest;
    NextUseIsFirstPosition(pages, x, pos + 1);
    if rest != [] {
      PositionsAfterFirst(pages, x, pos + 1);
      assert Advance(l, x, pos) == Lookahead(l.futureRefs[x := rest[1..]], l.nextRef[x := Some(rest[0])]);
    } else {
      assert Advance(l, x, pos) == l.(nextRef := l.nextRef[x := None]);
    }
  }

  /** Replaying position `pos` moves the lookahead to position `pos + 1`. */
  lemma AdvanceCursors(pages: seq<int>, pos: nat, l: Lookahead)
    requires pos < |pages| && CursorsAt(pages, pos, l)
    ensures CursorsAt(pages, pos + 1, Advance(l, pages[pos], pos))
  {
    var x := pages[pos];
    var l' := Advance(l, x, pos);
    AdvanceCursorOfAccessedPage(pages, pos, l);
    assert forall p :: p in l'.nextRef <==> p in l.nextRef;
    assert forall p :: p in l'.futureRefs <==> p in l.futureRefs;
    forall p | p in l'.nextRef && p != x
      ensures l'.nextRef[p] == NextUse(pages, p, pos + 1)
      ensures l'.futureRefs[p] == Remaining(pages, p, l'.nextRef[p])
    {
      assert l'.nextRef[p] == l.nextRef[p] && l'.futureRefs[p] == l.futureRefs[p];
    }
  }

  /** `next_ref.get(page, None)`. */
  function NextUseOf(nextRef: map<int, Option<nat>>, page: int): Option<nat> {
    if page in nextRef then nextRef[page] else None
  }

  /** A current cursor answers the question "when is this page used next?". */
  lemma CursorIsNextUse(pages: seq<int>, pos: nat, l: Lookahead, p: int)
    requires CursorsAt(pages, pos, l)
    ensures NextUseOf(l.nextRef, p) == NextUse(pages, p, pos)
  {
    if NextUse(pages, p, pos).Some? {
      assert pages[NextUse(pages, p, pos).value] in pages;
    }
  }

  // ---------------------------------------------------------------------------
  // Victim selection
  // ---------------------------------------------------------------------------

  /**
   * Belady's rule over the next uses of the resident pages, listed in the page
   * table's order: if some page is never used again, the first such page;
   * otherwise the page used furthest in the future, the first one on a tie.
   */
  ghost predicate FurthestChoice(uses: seq<Option<nat>>, k: int) {
    && 0 <= k < |uses|
    && if exists j :: 0 <= j < |uses| && uses[j].None? then
         uses[k].None? && forall j :: 0 <= j < k ==> uses[j].Some?
       else
         forall j :: 0 <= j < |uses| ==>
           uses[j].value <= uses[k].value && (j < k ==> uses[j].value < uses[k].value)
  }

  /** Belady's rule singles out one page. */
  lemma FurthestChoiceUnique(uses: seq<Option<nat>>, k1: int, k2: int)
    requires FurthestChoice(uses, k1) && FurthestChoice(uses, k2)
    ensures k1 == k2
  {
  }

  /** The cursors of the pages of `order`, in that order. */
  function UsesOf(order: seq<int>, nextRef: map<int, Option<nat>>): seq<Option<nat>> {
    seq(|order|, j requires 0 <= j < |order| => NextUseOf(nextRef, order[j]))
  }

  /**
   * The loop of `_select_victim_frame` for OPT from index `i` of the page
   * table on, with the running `victim_page` and `farthest_next_use`.
   */
  function OptScan(order: seq<int>, nextRef: map<int, Option<nat>>, i: nat, victim: Option<int>, farthest: int)
    : (r: Option<int>)
    requires i <= |order|
    ensures r == victim || (r.Some? && r.value in order[i..])
    decreases |order| - i
  {
    if i == |order| then victim
    else
      match NextUseOf(nextRef, order[i])
      case None => Some(order[i])
      case Some(n) =>
        if n > farthest then OptScan(order, nextRef, i + 1, Some(order[i]), n)
        else OptScan(order, nextRef, i + 1, victim, farthest)
  }

  /** The page OPT evicts: the scan from the start with no victim and `farthest_next_use = -1`. */
  function OptVictim(order: seq<int>, nextRef: map<int, Option<nat>>): Option<int> {
    OptScan(order, nextRef, 0, None, -1)
  }

  lemma {:induction false} OptScanFrom(order: seq<int>, nextRef: map<int, Option<nat>>, i: nat, m: nat, farthest: nat)
    requires m < i <= |order|
    requires forall j :: 0 <= j < i ==>
               NextUseOf(nextRef, order[j]).Some? && NextUseOf(nextRef, order[j]).value <= farthest
    requires NextUseOf(nextRef, order[m]) == Some(farthest)
    requires forall j :: 0 <= j < m ==> NextUseOf(nextRef, order[j]).value < farthest
    ensures exists k :: FurthestChoice(UsesOf(order, nextRef), k)
                     && OptScan(order, nextRef, i, Some(order[m]), farthest) == Some(order[k])
    decreases |order| - i
  {
    var uses := UsesOf(order, nextRef);
    if i == |order| {
      assert FurthestChoice(uses, m);
    } else {
      match NextUseOf(nextRef, order[i])
      case None =>
        assert uses[i].None?;
        assert FurthestChoice(uses, i);
      case Some(n) =>
        if n > farthest {
          OptScanFrom(order, nextRef, i + 1, i, n);
        } else {
          OptScanFrom(order, nextRef, i + 1, m, farthest);
        }
    }
  }

  /** The OPT scan over a non-empty page table always finds the page Belady's rule picks. */
  lemma OptVictimIsFurthest(order: seq<int>, nextRef: map<int, Option<nat>>)
    requires |order| > 0
    ensures exists k :: FurthestChoice(UsesOf(order, nextRef), k) && OptVictim(order, nextRef) == Some(order[k])
  {
    var uses := UsesOf(order, nextRef);
    match NextUseOf(nextRef, order[0])
    case None =>
      assert uses[0].None?;
      assert FurthestChoice(uses, 0);
    case Some(n) =>
      OptScanFrom(order, nextRef, 1, 0, n);
  }
}
