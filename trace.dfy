/**
 * What the simulator reads from a trace: accesses become (page, operation)
 * references, every access is counted per page, and the run report ranks the
 * pages by how often they were accessed.
 */
module Trace {

  datatype Op = R | W

  /** One trace line once its hexadecimal address has been parsed. */
  datatype TraceLine = TraceLine(address: int, op: Op)

  /** What the engine replays: the page an access falls in, and its operation. */
  datatype Reference = Reference(page: int, op: Op)

  /** Pages are 4 KiB: the page number drops the low 12 bits of an address. */
  const PageSize: nat := 4096

  /**
   * `address >> 12`. Python's right shift rounds toward minus infinity, and so
   * does Dafny's division by a positive divisor, so this agrees with the source
   * for negative addresses too.
   */
  function PageNumber(address: int): (page: int)
    ensures page * PageSize <= address < page * PageSize + PageSize
  {
    address / PageSize
  }

  lemma PageNumberExamples()
    ensures PageNumber(0x1000) == 1 && PageNumber(0xFFF) == 0 && PageNumber(0x1FFF) == 1
    ensures PageNumber(-1) == -1
  {}

  /** The references `load_trace_file` builds from the parsed lines of a trace. */
  function ReferencesOf(trace: seq<TraceLine>): (refs: seq<Reference>)
    ensures |refs| == |trace|
    ensures forall i :: 0 <= i < |trace| ==>
              refs[i].op == trace[i].op &&
              refs[i].page * PageSize <= trace[i].address < refs[i].page * PageSize + PageSize
  {
    seq(|trace|, i requires 0 <= i < |trace| => Reference(PageNumber(trace[i].address), trace[i].op))
  }

  /** The page numbers of a reference string, position by position. */
  function Pages(refs: seq<Reference>): seq<int> {
    seq(|refs|, i requires 0 <= i < |refs| => refs[i].page)
  }

  /** Parsing one more line adds its reference at the end. */
  lemma ReferencesOfPrefix(trace: seq<TraceLine>, i: nat)
    requires i < |trace|
    ensures ReferencesOf(trace[..i + 1])
         == ReferencesOf(trace[..i]) + [Reference(PageNumber(trace[i].address), trace[i].op)]
  {
    assert ReferencesOf(trace[..i + 1])[i] == Reference(PageNumber(trace[i].address), trace[i].op);
  }

  lemma PagesAppend(refs: seq<Reference>, r: Reference)
    ensures Pages(refs + [r]) == Pages(refs) + [r.page]
  {
    assert Pages(refs + [r])[|refs|] == r.page;
  }

  predicate Distinct(s: seq<int>) {
    forall i, j :: 0 <= i < j < |s| ==> s[i] != s[j]
  }

  /** The position of the first occurrence of `x` in `s`. */
  function FirstIndex(s: seq<int>, x: int): (i: nat)
    requires x in s
    ensures i < |s| && s[i] == x
    ensures forall j :: 0 <= j < i ==> s[j] != x
  {
    if s[0] == x then 0 else 1 + FirstIndex(s[1..], x)
  }

  // ---------------------------------------------------------------------------
  // The per-page access counter
  // ---------------------------------------------------------------------------

  /**
   * `page_access_frequency`: a dict from page to count. A Python dict keeps
   * its keys in insertion order, which decides how ties are ranked, so the
   * model keeps that order beside the counts.
   */
  datatype FrequencyTable = FrequencyTable(counts: map<int, nat>, order: seq<int>)

  const EmptyFrequency := FrequencyTable(map[], [])

  function CountOf(t: FrequencyTable, page: int): nat {
    if page in t.counts then t.counts[page] else 0
  }

  ghost predicate WellFormed(t: FrequencyTable) {
    && Distinct(t.order)
    && (forall p :: p in t.counts <==> p in t.order)
    && (forall p :: p in t.counts ==> t.counts[p] > 0)
  }

  /** `freq[page] = freq.get(page, 0) + 1`: a page seen for the first time becomes the last key. */
  function Record(t: FrequencyTable, page: int): FrequencyTable {
    if page in t.counts then t.(counts := t.counts[page := t.counts[page] + 1])
    else FrequencyTable(t.counts[page := 1], t.order + [page])
  }

  /** The table after recording `pages` from left to right. */
  function RecordAll(t: FrequencyTable, pages: seq<int>): FrequencyTable
    decreases |pages|
  {
    if pages == [] then t else Record(RecordAll(t, pages[..|pages| - 1]), pages[|pages| - 1])
  }

  lemma RecordAllAppend(t: FrequencyTable, pages: seq<int>, x: int)
    ensures RecordAll(t, pages + [x]) == Record(RecordAll(t, pages), x)
  {
    assert (pages + [x])[..|pages|] == pages;
  }

  lemma FirstIndexOfPrefix(pre: seq<int>, x: int, q: int)
    requires q in pre
    ensures FirstIndex(pre + [x], q) == FirstIndex(pre, q)
  {
    var pages := pre + [x];
    var a, b := FirstIndex(pages, q), FirstIndex(pre, q);
    assert pages[b] == q;
    assert a <= b;
    assert pre[a] == q;
  }

  /** The keys of `order` are pages of `pages`, listed in order of their first occurrence there. */
  ghost predicate FirstSeenOrder(order: seq<int>, pages: seq<int>) {
    && (forall i :: 0 <= i < |order| ==> order[i] in pages)
    && (forall i, j :: 0 <= i < j < |order| ==> FirstIndex(pages, order[i]) < FirstIndex(pages, order[j]))
  }

  /**
   * `t` is the table of `pages`: its keys are exactly the pages accessed, each
   * count is the number of accesses to that page, and the keys are in order of
   * first access.
   */
  ghost predicate Tallies(t: FrequencyTable, pages: seq<int>) {
    && WellFormed(t)
    && (forall p :: p in t.counts <==> p in pages)
    && (forall p :: CountOf(t, p) == multiset(pages)[p])
    && FirstSeenOrder(t.order, pages)
  }

  lemma RecordKeepsFirstSeenOrder(t: FrequencyTable, pre: seq<int>, x: int)
    requires Tallies(t, pre)
    ensures FirstSeenOrder(Record(t, x).order, pre + [x])
  {
    var pages := pre + [x];
    var order := Record(t, x).order;
    forall q | q in pre ensures FirstIndex(pages, q) == FirstIndex(pre, q) {
      FirstIndexOfPrefix(pre, x, q);
    }
    forall i | 0 <= i < |order| ensures order[i] in pages {
      if i < |t.order| {
        assert order[i] == t.order[i];
      }
    }
    forall i, j | 0 <= i < j < |order|
      ensures FirstIndex(pages, order[i]) < FirstIndex(pages, order[j])
    {
      assert order[i] == t.order[i];
      if j < |t.order| {
        assert order[j] == t.order[j];
      } else {
        assert x !in pre;
        assert FirstIndex(pages, x) == |pre|;
      }
    }
  }

  lemma RecordKeepsKeys(t: FrequencyTable, pre: seq<int>, x: int)
    requires Tallies(t, pre)
    ensures WellFormed(Record(t, x))
    ensures forall p :: p in Record(t, x).counts <==> p in pre + [x]
  {
  }

  lemma RecordCounts(t: FrequencyTable, pre: seq<int>, x: int)
    requires Tallies(t, pre)
    ensures forall p :: CountOf(Record(t, x), p) == multiset(pre + [x])[p]
  {
    assert multiset(pre + [x]) == multiset(pre) + multiset{x};
  }

  lemma RecordTallies(t: FrequencyTable, pre: seq<int>, x: int)
    requires Tallies(t, pre)
    ensures Tallies(Record(t, x), pre + [x])
  {
    RecordKeepsKeys(t, pre, x);
    RecordCounts(t, pre, x);
    RecordKeepsFirstSeenOrder(t, pre, x);
  }

  /** Counting a trace from an empty table tallies exactly that trace. */
  lemma {:induction false} FrequencyOfTrace(pages: seq<int>)
    ensures Tallies(RecordAll(EmptyFrequency, pages), pages)
  {
    if pages != [] {
      var pre := pages[..|pages| - 1];
      assert pages == pre + [pages[|pages| - 1]];
      FrequencyOfTrace(pre);
      RecordTallies(RecordAll(EmptyFrequency, pre), pre, pages[|pages| - 1]);
    }
  }

  // ---------------------------------------------------------------------------
  // The top-20 ranking of `get_stats`
  // ---------------------------------------------------------------------------

  /** One `(page, count)` item of the frequency dict. */
  datatype PageCount = PageCount(page: int, count: nat)

  const TopPagesLimit: nat := 20

  /** `page_access_frequency.items()`, in the dict's key order. */
  function Items(t: FrequencyTable): seq<PageCount> {
    seq(|t.order|, i requires 0 <= i < |t.order| => PageCount(t.order[i], CountOf(t, t.order[i])))
  }

  predicate DescendingByCount(s: seq<PageCount>) {
    forall i, j :: 0 <= i < j < |s| ==> s[i].count >= s[j].count
  }

  /** The items of `s` whose count is `c`, in their order in `s`. */
  function WithCount(s: seq<PageCount>, c: nat): seq<PageCount> {
    if s == [] then []
    else (if s[0].count == c then [s[0]] else []) + WithCount(s[1..], c)
  }

  /** Inserts `x` before the first item whose count is not larger than its own. */
  function InsertByCount(x: PageCount, sorted: seq<PageCount>): (r: seq<PageCount>)
    ensures multiset(r) == multiset(sorted) + multiset{x}
  {
    if sorted == [] || sorted[0].count <= x.count then [x] + sorted
    else
      assert sorted == [sorted[0]] + sorted[1..];
      [sorted[0]] + InsertByCount(x, sorted[1..])
  }

  lemma {:induction false} InsertByCountDescending(x: PageCount, sorted: seq<PageCount>)
    requires DescendingByCount(sorted)
    ensures DescendingByCount(InsertByCount(x, sorted))
  {
    if !(sorted == [] || sorted[0].count <= x.count) {
      var rest := InsertByCount(x, sorted[1..]);
      InsertByCountDescending(x, sorted[1..]);
      forall k | 0 <= k < |rest| ensures rest[k].count <= sorted[0].count {
        assert rest[k] in multiset(rest);
        if rest[k] != x {
          assert rest[k] in sorted[1..];
        }
      }
    }
  }

  /**
   * `sorted(items, key=count, reverse=True)`: an insertion sort that keeps
   * items with equal counts in their original order, as Python's stable sort
   * does with `reverse=True`.
   */
  function SortByCount(items: seq<PageCount>): (r: seq<PageCount>)
    ensures multiset(r) == multiset(items)
    ensures DescendingByCount(r)
  {
    if items == [] then []
    else
      assert items == [items[0]] + items[1..];
      InsertByCountDescending(items[0], SortByCount(items[1..]));
      InsertByCount(items[0], SortByCount(items[1..]))
  }

  lemma {:induction false} InsertByCountWithCount(x: PageCount, sorted: seq<PageCount>, c: nat)
    ensures WithCount(InsertByCount(x, sorted), c)
         == (if x.count == c then [x] else []) + WithCount(sorted, c)
  {
    if sorted == [] || sorted[0].count <= x.count {
      assert ([x] + sorted)[1..] == sorted;
    } else {
      var rest := InsertByCount(x, sorted[1..]);
      InsertByCountWithCount(x, sorted[1..], c);
      assert ([sorted[0]] + rest)[1..] == rest;
    }
  }

  /** The sort is stable: for every count, the items with that count keep their relative order. */
  lemma {:induction false} SortByCountIsStable(items: seq<PageCount>, c: nat)
    ensures WithCount(SortByCount(items), c) == WithCount(items, c)
  {
    if items != [] {
      SortByCountIsStable(items[1..], c);
      InsertByCountWithCount(items[0], SortByCount(items[1..]), c);
    }
  }

  lemma {:induction false} WithCountOfPrefix(s: seq<PageCount>, n: nat, c: nat)
    requires n <= |s|
    ensures WithCount(s, c) == WithCount(s[..n], c) + WithCount(s[n..], c)
  {
    if n > 0 {
      WithCountOfPrefix(s[1..], n - 1, c);
      assert s[..n][1..] == s[1..][..n - 1];
      assert s[n..] == s[1..][n - 1..];
    }
  }

  /** The `top_pages` entry of `get_stats`: the 20 most accessed pages, most accessed first. */
  function TopPages(t: FrequencyTable): seq<PageCount> {
    var sorted := SortByCount(Items(t));
    sorted[..if |sorted| < TopPagesLimit then |sorted| else TopPagesLimit]
  }

  lemma SortedLength(items: seq<PageCount>)
    ensures |SortByCount(items)| == |items|
  {
    assert |multiset(SortByCount(items))| == |multiset(items)|;
  }

  /**
   * The ranking lists min(20, number of pages) pages, most accessed first, each
   * with its own count.
   */
  lemma TopPagesListsCounts(t: FrequencyTable)
    requires WellFormed(t)
    ensures |TopPages(t)| == if |t.order| < TopPagesLimit then |t.order| else TopPagesLimit
    ensures DescendingByCount(TopPages(t))
    ensures forall i :: 0 <= i < |TopPages(t)| ==>
              TopPages(t)[i].page in t.counts && TopPages(t)[i].count == t.counts[TopPages(t)[i].page]
  {
    var items := Items(t);
    var sorted := SortByCount(items);
    SortedLength(items);
    var top := TopPages(t);
    forall i | 0 <= i < |top|
      ensures top[i].page in t.counts && top[i].count == t.counts[top[i].page]
    {
      assert top[i] == sorted[i];
      assert sorted[i] in multiset(sorted);
      assert top[i] in items;
    }
  }

  /** A page left out of the ranking was accessed no more often than any page in it. */
  lemma TopPagesLeavesOutLessAccessed(t: FrequencyTable, p: int, i: nat)
    requires WellFormed(t)
    requires p in t.counts && i < |TopPages(t)|
    requires forall k :: 0 <= k < |TopPages(t)| ==> TopPages(t)[k].page != p
    ensures t.counts[p] <= TopPages(t)[i].count
  {
    var items := Items(t);
    var sorted := SortByCount(items);
    SortedLength(items);
    var top := TopPages(t);
    var k0 :| 0 <= k0 < |t.order| && t.order[k0] == p;
    assert items[k0] == PageCount(p, t.counts[p]);
    assert items[k0] in multiset(sorted);
    var k :| 0 <= k < |sorted| && sorted[k] == items[k0];
    assert sorted[k].page == p && sorted[k].count == t.counts[p];
    assert forall j :: 0 <= j < |top| ==> top[j] == sorted[j];
    assert |top| <= k;
    assert sorted[i].count >= sorted[k].count;
    assert top[i] == sorted[i];
  }

  /** Among the pages ranked, pages with equal counts keep their first-seen order. */
  lemma TopPagesTiesInFirstSeenOrder(t: FrequencyTable, c: nat)
    ensures WithCount(TopPages(t), c) <= WithCount(Items(t), c)
  {
    var items := Items(t);
    var sorted := SortByCount(items);
    var n := if |sorted| < TopPagesLimit then |sorted| else TopPagesLimit;
    SortByCountIsStable(items, c);
    WithCountOfPrefix(sorted, n, c);
  }
}
