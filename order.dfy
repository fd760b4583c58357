/**
 * Key order in the tree. Every page answers for a range of keys, its span:
 * the root for all keys, the child in slot s of an index page for the keys
 * from the separator before that slot up to (not including) the separator
 * after it. A leaf holds only keys of its span, each once and in order, and
 * the spans of the leaves tile the key line along the sibling chain.
 *
 * The spans and the parent of every page are ghost records beside the page
 * store. While a split travels upwards the tree is briefly between two
 * states: a page has been split but its parent does not hold the separator
 * for the new half yet. `Pending` describes that state: the store would be
 * ordered if the parent held the separator in the slot after the split page.
 */
module BTreeOrder {
  import opened BT
  import opened BTSortedPage
  import opened BTLeafPage
  import opened BTIndexPage
  import opened BTreeInvariants
  import opened BTreeSplit

  /** The keys k with lo <= k < hi; an absent bound does not bound. */
  datatype Span = Span(lo: Option<Key>, hi: Option<Key>)

  type Spans = map<PageId, Span>
  type Parents = map<PageId, PageId>

  /** The span of the root: every key. */
  const Whole := Span(None, None)

  predicate InSpan(k: Key, s: Span)
  {
    (s.lo.None? || s.lo.value <= k) && (s.hi.None? || k < s.hi.value)
  }

  /** A lower bound strictly below an upper bound: the span between them holds a key. */
  predicate Below(lo: Option<Key>, hi: Option<Key>)
  {
    lo.None? || hi.None? || lo.value < hi.value
  }

  /** Strictly increasing keys: sorted, and no key twice. */
  ghost predicate StrictlySorted(s: seq<KeyDataEntry>)
  {
    forall i, j :: 0 <= i < j < |s| ==> s[i].key < s[j].key
  }

  /** The page an index entry points to. */
  function ChildOf(e: KeyDataEntry): PageId
  {
    if e.data.IndexData? then e.data.pageNo else INVALID_PAGE
  }

  /** Slot `s` of an index page: slot 0 is the left link, slot s > 0 the child of entry s - 1. */
  function Child(p: SortedPage, s: nat): PageId
    requires s <= |p.entries|
  {
    if s == 0 then p.prevPage else ChildOf(p.entries[s - 1])
  }

  /** The keys slot `s` of an index page answers for, when the page answers for `sp`. */
  function SlotSpan(p: SortedPage, sp: Span, s: nat): Span
    requires s <= |p.entries|
  {
    Span(if s == 0 then sp.lo else Some(p.entries[s - 1].key),
         if s == |p.entries| then sp.hi else Some(p.entries[s].key))
  }

  /** The index page `p` under id `id`, answering for `sp`: each slot's child answers for the slot's keys and has `id` as parent. */
  ghost predicate SlotsOk(p: SortedPage, sp: Span, span: Spans, up: Parents, id: PageId)
  {
    forall s: nat {:trigger Child(p, s)} :: s <= |p.entries| ==>
      && Child(p, s) in span && span[Child(p, s)] == SlotSpan(p, sp, s)
      && Child(p, s) in up && up[Child(p, s)] == id
  }

  /** One page's part of the order: a non-empty span; a leaf's keys strictly increase inside it. */
  ghost predicate PageSpanOk(pages: Pages, span: Spans, up: Parents, id: PageId)
    requires id in pages
  {
    && id in span && Below(span[id].lo, span[id].hi)
    && (pages[id].nodeType == LeafNode ==>
          && StrictlySorted(pages[id].entries)
          && forall x :: x in pages[id].entries ==> InSpan(x.key, span[id]))
    && (pages[id].nodeType == IndexNode ==> SlotsOk(pages[id], span[id], span, up, id))
  }

  /** The spans of the leaves tile the key line in chain order. */
  ghost predicate ChainSpans(span: Spans, chain: seq<PageId>)
  {
    && |chain| > 0
    && (forall j :: 0 <= j < |chain| ==> chain[j] in span)
    && span[chain[0]].lo.None? && span[chain[|chain| - 1]].hi.None?
    && forall i, j {:trigger chain[i], chain[j]} :: 0 <= i && j == i + 1 && j < |chain| ==>
         chain[i] in span && chain[j] in span && span[chain[i]].hi.Some? && span[chain[i]].hi == span[chain[j]].lo
  }

  /** Every page keeps its part of the order; parents are recorded for pages of the store and are other index pages. */
  ghost predicate SpansOk(pages: Pages, span: Spans, up: Parents, chain: seq<PageId>)
  {
    && (forall id {:trigger PageSpanOk(pages, span, up, id)} :: id in pages ==> PageSpanOk(pages, span, up, id))
    && up.Keys <= pages.Keys
    && (forall c {:trigger up[c]} :: c in up ==> up[c] in pages && pages[up[c]].nodeType == IndexNode && up[c] != c)
    && ChainSpans(span, chain)
  }

  /** Every page but `a` and `b` has a parent. */
  ghost predicate ParentedBut(pages: Pages, up: Parents, a: PageId, b: PageId)
  {
    forall id :: id in pages && id != a && id != b ==> id in up
  }

  /** The ordered tree under `root`: the root answers for every key and is the only page without a parent. */
  ghost predicate Ordered(pages: Pages, span: Spans, up: Parents, chain: seq<PageId>, root: PageId)
  {
    && SpansOk(pages, span, up, chain)
    && root in pages && root !in up && root in span && span[root] == Whole
    && ParentedBut(pages, up, root, root)
  }

  /** Index page `g` with `sep` in the slot after slot `s`. */
  function AddSlot(g: SortedPage, s: nat, sep: KeyDataEntry): SortedPage
    requires s <= |g.entries|
  {
    g.(entries := g.entries[..s] + [sep] + g.entries[s..])
  }

  /**
   * The root `x` has been split and `sep` names the new upper half: the two
   * halves answer for the keys below and from the separator, and neither
   * has a parent yet.
   */
  ghost predicate RootPending(pages: Pages, span: Spans, up: Parents, chain: seq<PageId>, x: PageId, sep: KeyDataEntry)
    requires sep.data.IndexData?
  {
    var y := sep.data.pageNo;
    && SpansOk(pages, span, up, chain)
    && x !in up && y !in up && x in span && y in span
    && span[x] == Span(None, Some(sep.key)) && span[y] == Span(Some(sep.key), None)
    && ParentedBut(pages, up, x, y)
  }

  /**
   * Page `x`, not the root, has been split and `sep` names the new upper
   * half: the store is ordered once `x`'s parent holds `sep` right after
   * the slot of `x`.
   */
  ghost predicate ParentPending(pages: Pages, span: Spans, up: Parents, chain: seq<PageId>,
                                root: PageId, x: PageId, sep: KeyDataEntry)
  {
    && root in pages && root !in up && root in span && span[root] == Whole
    && ParentedBut(pages, up, root, root)
    && x in up && up[x] in pages && pages[up[x]].nodeType == IndexNode
    && forall s: nat {:trigger Child(pages[up[x]], s)} :: s <= |pages[up[x]].entries| && Child(pages[up[x]], s) == x ==>
         SpansOk(pages[up[x] := AddSlot(pages[up[x]], s, sep)], span, up, chain)
  }

  /** The state between a split of page `x` and the placement of its separator `sep`. */
  ghost predicate Pending(pages: Pages, span: Spans, up: Parents, chain: seq<PageId>,
                          root: PageId, x: PageId, sep: KeyDataEntry)
  {
    && sep.data.IndexData? && x in pages && sep.data.pageNo in pages
    && (x == root ==> RootPending(pages, span, up, chain, x, sep))
    && (x != root ==> ParentPending(pages, span, up, chain, root, x, sep))
  }

  /** The spans after page `id`'s span is cut at `c`, the upper part going to page `newId`. */
  function CutSpan(span: Spans, id: PageId, newId: PageId, c: Key): Spans
    requires id in span
  {
    span[id := Span(span[id].lo, Some(c))][newId := Span(Some(c), span[id].hi)]
  }

  /** The parents after page `newId` joins `id` under `id`'s parent, if it has one. */
  function Sibling(up: Parents, id: PageId, newId: PageId): Parents
  {
    if id in up then up[newId := up[id]] else up
  }

  /** The children of an index page. */
  ghost function Children(p: SortedPage): set<PageId>
  {
    set s: nat | s <= |p.entries| :: Child(p, s)
  }

  /** The parents after the children of `p` move under page `newId`. */
  ghost function Adopt(up: Parents, p: SortedPage, newId: PageId): Parents
  {
    map c | c in up.Keys + Children(p) :: if c in Children(p) then newId else up[c]
  }

  /** Every page at height `l` or above that had a parent still has it. */
  ghost predicate UpKept(level: Levels, up: Parents, up': Parents, l: int)
  {
    forall c :: c in up && c in level && level[c] >= l ==> c in up' && up'[c] == up[c]
  }

  /** Two steps that each keep the parents from some height on keep them from the higher height on. */
  lemma UpKeptTrans(pages: Pages, level: Levels, up: Parents, pages': Pages, level': Levels, up': Parents,
                    up'': Parents, a: int, b: int, l: int)
    requires level.Keys <= pages.Keys && Grows(pages, level, pages', level') && a <= l && b <= l
    ensures UpKept(level, up, up', a) && UpKept(level', up', up'', b) ==> UpKept(level, up, up'', l)
  {
    if UpKept(level, up, up', a) && UpKept(level', up', up'', b) {
      forall c | c in up && c in level && level[c] >= l ensures c in up'' && up''[c] == up[c] {
        assert c in pages;
      }
    }
  }

  /** A new page joining a sibling leaves every recorded parent alone. */
  lemma SiblingKeepsUp(pages: Pages, level: Levels, up: Parents, id: PageId, newId: PageId)
    requires up.Keys <= pages.Keys && newId !in pages
    ensures UpKept(level, up, Sibling(up, id, newId), 0)
  {
  }

  /** Two parentless pages going under a new root leave every recorded parent alone. */
  lemma GrowKeepsUp(level: Levels, up: Parents, x: PageId, y: PageId, t: PageId)
    requires x !in up && y !in up
    ensures UpKept(level, up, up[x := t][y := t], 0)
  {
  }

  // ---------------------------------------------------------------------
  // Strictly sorted runs
  // ---------------------------------------------------------------------

  /** Each key below the next one makes a run strictly increasing. */
  lemma {:induction false} StrictFromSteps(s: seq<KeyDataEntry>)
    requires forall i :: 0 <= i < |s| - 1 ==> s[i].key < s[i + 1].key
    ensures StrictlySorted(s)
  {
    if |s| > 1 {
      StrictFromSteps(s[1..]);
      forall i, j | 0 <= i < j < |s| ensures s[i].key < s[j].key {
        if i > 0 {
          assert s[1..][i - 1] == s[i] && s[1..][j - 1] == s[j];
        } else if j > 1 {
          assert s[1..][0] == s[1] && s[1..][j - 1] == s[j];
        }
      }
    }
  }

  /**
   * A sorted run is determined by its entries once one arrangement of them
   * is strictly increasing: that arrangement is the only sorted one.
   */
  lemma {:induction false} SortedUnique(t: seq<KeyDataEntry>, s: seq<KeyDataEntry>)
    requires Sorted(t) && StrictlySorted(s) && multiset(t) == multiset(s)
    ensures t == s
    decreases |s|
  {
    assert |t| == |multiset(t)| == |multiset(s)| == |s|;
    if s != [] {
      SameHead(t, s);
      TailsAgree(t, s);
      SortedUnique(t[1..], s[1..]);
    }
  }

  /** Two arrangements of the same entries, one sorted, one strictly increasing, start alike. */
  lemma SameHead(t: seq<KeyDataEntry>, s: seq<KeyDataEntry>)
    requires Sorted(t) && StrictlySorted(s) && multiset(t) == multiset(s) && |s| > 0
    ensures |t| > 0 && t[0] == s[0]
  {
    assert s[0] in multiset(t);
    assert |t| > 0;
    assert t[0] in multiset(s);
    var i :| 0 <= i < |s| && s[i] == t[0];
    var j :| 0 <= j < |t| && t[j] == s[0];
    assert t[0].key <= t[j].key;
  }

  /** After equal first entries, the rests are again a sorted and a strictly increasing arrangement of the same entries. */
  lemma TailsAgree(t: seq<KeyDataEntry>, s: seq<KeyDataEntry>)
    requires Sorted(t) && StrictlySorted(s) && multiset(t) == multiset(s) && |s| > 0 && |t| > 0 && t[0] == s[0]
    ensures Sorted(t[1..]) && StrictlySorted(s[1..]) && multiset(t[1..]) == multiset(s[1..])
  {
    assert t == [t[0]] + t[1..];
    assert s == [s[0]] + s[1..];
    assert multiset(t[1..]) == multiset(t) - multiset{t[0]};
    assert multiset(s[1..]) == multiset(s) - multiset{s[0]};
    forall a, b | 0 <= a < b < |t| - 1 ensures t[1..][a].key <= t[1..][b].key {
      assert t[1..][a] == t[a + 1] && t[1..][b] == t[b + 1];
    }
    forall a, b | 0 <= a < b < |s| - 1 ensures s[1..][a].key < s[1..][b].key {
      assert s[1..][a] == s[a + 1] && s[1..][b] == s[b + 1];
    }
  }

  /** Inserting a key not yet present into a strictly increasing run, at its sorted place, keeps it strictly increasing. */
  lemma StrictInsert(s: seq<KeyDataEntry>, e: KeyDataEntry)
    requires StrictlySorted(s) && forall x :: x in s ==> x.key != e.key
    ensures StrictlySorted(s[..InsertPos(s, e.key)] + [e] + s[InsertPos(s, e.key)..])
  {
    var pos := InsertPos(s, e.key);
    var t := s[..pos] + [e] + s[pos..];
    forall i | 0 <= i < |t| - 1 ensures t[i].key < t[i + 1].key {
      if i + 1 < pos {
        assert t[i] == s[i] && t[i + 1] == s[i + 1];
      } else if i + 1 == pos {
        assert t[i] == s[i] && t[i + 1] == e && s[i] in s;
      } else if i == pos {
        assert t[i] == e && t[i + 1] == s[i];
      } else {
        assert t[i] == s[i - 1] && t[i + 1] == s[i];
      }
    }
    StrictFromSteps(t);
  }

  /** Removing a slot keeps a run strictly increasing. */
  lemma StrictRemove(s: seq<KeyDataEntry>, i: nat)
    requires StrictlySorted(s) && i < |s|
    ensures StrictlySorted(RemoveAt(s, i))
  {
    var r := RemoveAt(s, i);
    forall a, b | 0 <= a < b < |r| ensures r[a].key < r[b].key {
      var a' := if a < i then a else a + 1;
      var b' := if b < i then b else b + 1;
      assert r[a] == s[a'] && r[b] == s[b'];
    }
  }

  /** A strictly increasing run holds no entry twice. */
  lemma {:induction false} StrictOnce(s: seq<KeyDataEntry>, e: KeyDataEntry)
    requires StrictlySorted(s)
    ensures multiset(s)[e] <= 1
  {
    if |s| > 0 {
      var t := s[1..];
      assert s == [s[0]] + t;
      assert StrictlySorted(t) by {
        forall a, b | 0 <= a < b < |t| ensures t[a].key < t[b].key {
          assert t[a] == s[a + 1] && t[b] == s[b + 1];
        }
      }
      StrictOnce(t, e);
      if e == s[0] {
        forall k | 0 <= k < |t| ensures t[k] != e {
          assert t[k] == s[k + 1];
        }
        assert e !in t;
      }
    }
  }

  /**
   * Taking one entry out of a strictly increasing run leaves no entry with
   * its key: a key is held at most once.
   */
  lemma RemovedKeyGone(s: seq<KeyDataEntry>, t: seq<KeyDataEntry>, r: KeyDataEntry)
    requires StrictlySorted(s) && multiset(s) == multiset(t) + multiset{r}
    ensures forall x :: x in t ==> x.key != r.key
  {
    StrictOnce(s, r);
    forall x | x in t ensures x.key != r.key {
      assert x in multiset(s) && r in multiset(s) && multiset(t)[x] >= 1;
      var i :| 0 <= i < |s| && s[i] == x;
      var j :| 0 <= j < |s| && s[j] == r;
    }
  }

  // ---------------------------------------------------------------------
  // The slots of an index page
  // ---------------------------------------------------------------------

  /**
   * When every slot of an index page answers for a non-empty span, its keys
   * strictly increase, stay inside the page's span, and no two slots share
   * a lower bound.
   */
  lemma SlotsIncrease(p: SortedPage, sp: Span)
    requires forall s: nat {:trigger SlotSpan(p, sp, s)} :: s <= |p.entries| ==> Below(SlotSpan(p, sp, s).lo, SlotSpan(p, sp, s).hi)
    ensures StrictlySorted(p.entries)
    ensures |p.entries| > 0 ==> Below(sp.lo, Some(p.entries[0].key)) && Below(Some(p.entries[|p.entries| - 1].key), sp.hi)
    ensures forall a: nat, b: nat {:trigger SlotSpan(p, sp, a), SlotSpan(p, sp, b)} ::
              a <= |p.entries| && b <= |p.entries| && SlotSpan(p, sp, a).lo == SlotSpan(p, sp, b).lo ==> a == b
  {
    var n := |p.entries|;
    forall i | 0 <= i < n - 1 ensures p.entries[i].key < p.entries[i + 1].key {
      assert Below(SlotSpan(p, sp, i + 1).lo, SlotSpan(p, sp, i + 1).hi);
    }
    StrictFromSteps(p.entries);
    if n > 0 {
      assert Below(SlotSpan(p, sp, 0).lo, SlotSpan(p, sp, 0).hi);
      assert Below(SlotSpan(p, sp, n).lo, SlotSpan(p, sp, n).hi);
    }
    forall a: nat, b: nat | a <= n && b <= n && SlotSpan(p, sp, a).lo == SlotSpan(p, sp, b).lo ensures a == b {
    }
  }

  /** Every slot's child is a page of the store. */
  ghost predicate ChildrenIn(pages: Pages, p: SortedPage)
  {
    forall s: nat {:trigger Child(p, s)} :: s <= |p.entries| ==> Child(p, s) in pages
  }

  /** The children of an index page of an ordered store answer for non-empty spans. */
  lemma SlotsNonEmpty(pages: Pages, span: Spans, up: Parents, chain: seq<PageId>, id: PageId)
    requires SpansOk(pages, span, up, chain) && id in pages && pages[id].nodeType == IndexNode
    ensures id in span && ChildrenIn(pages, pages[id])
    ensures forall s: nat {:trigger SlotSpan(pages[id], span[id], s)} :: s <= |pages[id].entries| ==>
              Below(SlotSpan(pages[id], span[id], s).lo, SlotSpan(pages[id], span[id], s).hi)
  {
    assert PageSpanOk(pages, span, up, id);
    forall s: nat | s <= |pages[id].entries|
      ensures Below(SlotSpan(pages[id], span[id], s).lo, SlotSpan(pages[id], span[id], s).hi)
    {
      assert PageSpanOk(pages, span, up, Child(pages[id], s));
    }
  }

  /** The children of an index page of an ordered store: in distinct slots, distinct pages. */
  lemma ChildrenDistinct(pages: Pages, span: Spans, up: Parents, chain: seq<PageId>, id: PageId)
    requires SpansOk(pages, span, up, chain) && id in pages && pages[id].nodeType == IndexNode
    ensures id in span && StrictlySorted(pages[id].entries)
    ensures forall a: nat, b: nat {:trigger Child(pages[id], a), Child(pages[id], b)} ::
              a <= |pages[id].entries| && b <= |pages[id].entries| && Child(pages[id], a) == Child(pages[id], b) ==> a == b
  {
    var p := pages[id];
    SlotsNonEmpty(pages, span, up, chain, id);
    SlotsIncrease(p, span[id]);
    assert PageSpanOk(pages, span, up, id);
    forall a: nat, b: nat | a <= |p.entries| && b <= |p.entries| && Child(p, a) == Child(p, b) ensures a == b {
      assert SlotSpan(p, span[id], a) == span[Child(p, a)] == SlotSpan(p, span[id], b);
    }
  }

  /**
   * getPageNoByKey on a sorted index page answering for `sp`, asked for a
   * key of `sp`, picks the child of the slot that answers for the key.
   */
  lemma ChildSlot(p: SortedPage, sp: Span, k: Key) returns (s: nat)
    requires IsIndexPage(p) && |p.entries| > 0 && Sorted(p.entries) && InSpan(k, sp)
    ensures s <= |p.entries| && Child(p, s) == GetPageNoByKey(p, k) && InSpan(k, SlotSpan(p, sp, s))
  {
    if k < p.entries[0].key {
      s := 0;
    } else {
      GetPageNoByKeyPicksLastSeparator(p, k);
      var i :| && 0 <= i < |p.entries| && p.entries[i].data == IndexData(GetPageNoByKey(p, k))
               && p.entries[i].key <= k && forall m :: i < m < |p.entries| ==> k < p.entries[m].key;
      s := i + 1;
    }
  }

  // ---------------------------------------------------------------------
  // The leaf chain
  // ---------------------------------------------------------------------

  /** Two strictly increasing runs, the first entirely below the second, concatenate to one. */
  lemma StrictConcat(a: seq<KeyDataEntry>, b: seq<KeyDataEntry>)
    requires StrictlySorted(a) && StrictlySorted(b)
    requires forall x, y :: x in a && y in b ==> x.key < y.key
    ensures StrictlySorted(a + b)
  {
    var c := a + b;
    forall i, j | 0 <= i < j < |c| ensures c[i].key < c[j].key {
      if j < |a| {
        assert c[i] == a[i] && c[j] == a[j];
      } else if i >= |a| {
        assert c[i] == b[i - |a|] && c[j] == b[j - |a|];
      } else {
        assert c[i] == a[i] && c[j] == b[j - |a|] && a[i] in a && b[j - |a|] in b;
      }
    }
  }

  /** A leaf of an ordered store: its keys strictly increase inside its non-empty span. */
  lemma LeafOrdered(pages: Pages, span: Spans, up: Parents, chain: seq<PageId>, id: PageId)
    requires SpansOk(pages, span, up, chain) && id in pages && pages[id].nodeType == LeafNode
    ensures id in span && Below(span[id].lo, span[id].hi) && StrictlySorted(pages[id].entries)
    ensures forall x :: x in pages[id].entries ==> InSpan(x.key, span[id])
  {
    assert PageSpanOk(pages, span, up, id);
  }

  /** Neighbouring leaves on the chain: the upper bound of one is the lower bound of the next. */
  lemma Tiles(span: Spans, chain: seq<PageId>, j: nat)
    requires ChainSpans(span, chain) && j + 1 < |chain|
    ensures chain[j] in span && chain[j + 1] in span
    ensures span[chain[j]].hi.Some? && span[chain[j]].hi == span[chain[j + 1]].lo
  {
    assert chain[j] == chain[j] && chain[j + 1] == chain[j + 1];
  }

  /**
   * From leaf `chain[j]` on, the entries of the chain strictly increase and
   * none lies below that leaf's lower bound.
   */
  lemma {:induction false} SuffixOrdered(pages: Pages, span: Spans, up: Parents, chain: seq<PageId>, j: nat)
    requires SpansOk(pages, span, up, chain) && ChainOk(pages, chain) && j < |chain|
    ensures chain[j] in span && StrictlySorted(ChainEntries(pages, chain[j..]))
    ensures forall x :: x in ChainEntries(pages, chain[j..]) ==> InSpan(x.key, Span(span[chain[j]].lo, None))
    decreases |chain| - j
  {
    var leaf := pages[chain[j]].entries;
    LeafOrdered(pages, span, up, chain, chain[j]);
    assert chain[j..][1..] == chain[j + 1..];
    assert ChainEntries(pages, chain[j..]) == leaf + ChainEntries(pages, chain[j + 1..]);
    if j + 1 < |chain| {
      SuffixOrdered(pages, span, up, chain, j + 1);
      Tiles(span, chain, j);
      var rest := ChainEntries(pages, chain[j + 1..]);
      StrictConcat(leaf, rest);
    } else {
      assert chain[j + 1..] == [];
    }
  }

  /** Every entry of the leaves before `chain[j]` lies below that leaf's lower bound. */
  lemma {:induction false} PrefixBelow(pages: Pages, span: Spans, up: Parents, chain: seq<PageId>, j: nat)
    requires SpansOk(pages, span, up, chain) && ChainOk(pages, chain) && 0 < j < |chain|
    ensures chain[j] in span && span[chain[j]].lo.Some?
    ensures forall x :: x in ChainEntries(pages, chain[..j]) ==> x.key < span[chain[j]].lo.value
    decreases j
  {
    assert chain[..j] == chain[..j - 1] + [chain[j - 1]];
    ChainEntriesAppend(pages, chain[..j - 1], [chain[j - 1]]);
    assert ChainEntries(pages, [chain[j - 1]]) == pages[chain[j - 1]].entries + ChainEntries(pages, []);
    LeafOrdered(pages, span, up, chain, chain[j - 1]);
    Tiles(span, chain, j - 1);
    if j > 1 {
      PrefixBelow(pages, span, up, chain, j - 1);
    } else {
      assert chain[..j - 1] == [];
    }
  }

  /** The entries of an ordered tree strictly increase along the leaf chain: no key twice, in key order. */
  lemma ContentsStrictlySorted(pages: Pages, span: Spans, up: Parents, chain: seq<PageId>)
    requires SpansOk(pages, span, up, chain) && ChainOk(pages, chain)
    ensures StrictlySorted(ChainEntries(pages, chain))
  {
    SuffixOrdered(pages, span, up, chain, 0);
    assert chain[0..] == chain;
  }

  /** Key `k` in the span of leaf `chain[j]`: every entry of the tree with key `k` is on that leaf. */
  lemma KeyOnlyInItsLeaf(pages: Pages, span: Spans, up: Parents, chain: seq<PageId>, j: nat, k: Key)
    requires SpansOk(pages, span, up, chain) && ChainOk(pages, chain) && j < |chain|
    requires chain[j] in span && InSpan(k, span[chain[j]])
    ensures forall x :: x in ChainEntries(pages, chain) && x.key == k ==> x in pages[chain[j]].entries
  {
    ChainEntriesAround(pages, chain, j);
    if j > 0 {
      PrefixBelow(pages, span, up, chain, j);
    } else {
      assert chain[..j] == [];
    }
    if j + 1 < |chain| {
      SuffixOrdered(pages, span, up, chain, j + 1);
      Tiles(span, chain, j);
    } else {
      assert chain[j + 1..] == [];
    }
  }

  /** Two different leaves of an ordered tree share no entry: an earlier leaf lies below a later leaf's span. */
  lemma LeavesDisjoint(pages: Pages, span: Spans, up: Parents, chain: seq<PageId>, a: nat, b: nat)
    requires SpansOk(pages, span, up, chain) && ChainOk(pages, chain) && a < b < |chain|
    ensures forall x :: x in pages[chain[a]].entries ==> x !in pages[chain[b]].entries
  {
    PrefixBelow(pages, span, up, chain, b);
    LeafOrdered(pages, span, up, chain, chain[b]);
    ChainEntriesAround(pages, chain[..b], a);
    assert chain[..b][a] == chain[a];
  }

  // ---------------------------------------------------------------------
  // Updates that keep the order
  // ---------------------------------------------------------------------

  /**
   * A page keeps its part of the order when its kind, entries and left
   * link, its own span, and the spans and parents of its children are
   * unchanged.
   */
  lemma FrameSpanOk(pages: Pages, span: Spans, up: Parents, pages': Pages, span': Spans, up': Parents, id: PageId)
    requires id in pages && id in pages' && PageSpanOk(pages, span, up, id)
    requires pages'[id].nodeType == pages[id].nodeType && pages'[id].entries == pages[id].entries
    requires pages[id].nodeType == IndexNode ==> pages'[id].prevPage == pages[id].prevPage
    requires id in span' && span'[id] == span[id]
    requires pages[id].nodeType == IndexNode ==>
      forall s: nat {:trigger Child(pages[id], s)} :: s <= |pages[id].entries| ==>
        && Child(pages[id], s) in span && Child(pages[id], s) in span' && span'[Child(pages[id], s)] == span[Child(pages[id], s)]
        && Child(pages[id], s) in up && Child(pages[id], s) in up' && up'[Child(pages[id], s)] == up[Child(pages[id], s)]
    ensures PageSpanOk(pages', span', up', id)
  {
    if pages[id].nodeType == IndexNode {
      var p, p' := pages[id], pages'[id];
      forall s: nat | s <= |p'.entries|
        ensures && Child(p', s) in span' && span'[Child(p', s)] == SlotSpan(p', span'[id], s)
                && Child(p', s) in up' && up'[Child(p', s)] == id
      {
        assert Child(p', s) == Child(p, s) && SlotSpan(p', span'[id], s) == SlotSpan(p, span[id], s);
      }
    }
  }

  /** Pages other than `id` keep their part of the order when only leaf `id` changes. */
  lemma ReplaceLeafKeepsOrder(pages: Pages, span: Spans, up: Parents, chain: seq<PageId>, root: PageId,
                              id: PageId, q: SortedPage)
    requires Ordered(pages, span, up, chain, root)
    requires id in pages && pages[id].nodeType == LeafNode && q.nodeType == LeafNode && id in span
    requires StrictlySorted(q.entries) && forall x :: x in q.entries ==> InSpan(x.key, span[id])
    ensures Ordered(pages[id := q], span, up, chain, root)
  {
    var pages' := pages[id := q];
    assert PageSpanOk(pages, span, up, id);
    assert PageSpanOk(pages', span, up, id);
    forall o | o in pages' ensures PageSpanOk(pages', span, up, o) {
      if o != id {
        assert PageSpanOk(pages, span, up, o);
        FrameSpanOk(pages, span, up, pages', span, up, o);
      }
    }
  }

  /** Inserting into a leaf a key of its span that it does not hold yet leaves it strictly increasing and inside its span. */
  lemma LeafInsertOrdered(l: seq<KeyDataEntry>, sp: Span, q: seq<KeyDataEntry>, e: KeyDataEntry)
    requires StrictlySorted(l) && forall x :: x in l ==> InSpan(x.key, sp) && x.key != e.key
    requires InSpan(e.key, sp) && Sorted(q) && multiset(q) == multiset(l) + multiset{e}
    ensures StrictlySorted(q) && forall x :: x in q ==> InSpan(x.key, sp)
  {
    var pos := InsertPos(l, e.key);
    StrictInsert(l, e);
    assert l == l[..pos] + l[pos..];
    assert multiset(l[..pos] + [e] + l[pos..]) == multiset(l) + multiset{e};
    SortedUnique(q, l[..pos] + [e] + l[pos..]);
    forall x | x in q ensures InSpan(x.key, sp) {
      assert x in multiset(q);
    }
  }

  /**
   * A leaf that takes an entry whose key lies in its span and is not on the
   * leaf yet keeps the tree ordered.
   */
  lemma LeafInsertKeepsOrder(pages: Pages, span: Spans, up: Parents, chain: seq<PageId>, root: PageId,
                             id: PageId, q: SortedPage, e: KeyDataEntry)
    requires Ordered(pages, span, up, chain, root)
    requires id in pages && pages[id].nodeType == LeafNode && id in span && InSpan(e.key, span[id])
    requires forall x :: x in pages[id].entries ==> x.key != e.key
    requires q.nodeType == LeafNode && Sorted(q.entries)
    requires multiset(q.entries) == multiset(pages[id].entries) + multiset{e}
    ensures Ordered(pages[id := q], span, up, chain, root)
  {
    LeafOrdered(pages, span, up, chain, id);
    LeafInsertOrdered(pages[id].entries, span[id], q.entries, e);
    ReplaceLeafKeepsOrder(pages, span, up, chain, root, id, q);
  }

  /** Removing a slot of a leaf keeps the tree ordered. */
  lemma LeafRemoveKeepsOrder(pages: Pages, span: Spans, up: Parents, chain: seq<PageId>, root: PageId,
                             id: PageId, i: nat)
    requires Ordered(pages, span, up, chain, root)
    requires id in pages && pages[id].nodeType == LeafNode && i < |pages[id].entries|
    ensures Ordered(pages[id := pages[id].(entries := RemoveAt(pages[id].entries, i))], span, up, chain, root)
  {
    LeafOrdered(pages, span, up, chain, id);
    StrictRemove(pages[id].entries, i);
    RemoveAtKeeps(pages[id].entries, i);
    ReplaceLeafKeepsOrder(pages, span, up, chain, root, id, pages[id].(entries := RemoveAt(pages[id].entries, i)));
  }

  /**
   * The slots of `g` with `sep` added after slot `s`: the child of slot `s`
   * answers for the keys of its old slot below the separator, the page
   * `sep` names for those from it, and every other child keeps its span
   * and parent.
   */
  lemma AddSlotOk(g: SortedPage, gid: PageId, sp: Span, s: nat, sep: KeyDataEntry,
                  span: Spans, up: Parents, span': Spans, up': Parents)
    requires s <= |g.entries| && sep.data.IndexData?
    requires SlotsOk(g, sp, span, up, gid)
    requires forall t: nat {:trigger Child(g, t)} :: t <= |g.entries| && t != s ==>
               && Child(g, t) in span' && span'[Child(g, t)] == span[Child(g, t)]
               && Child(g, t) in up' && up'[Child(g, t)] == gid
    requires Child(g, s) in span' && span'[Child(g, s)] == Span(SlotSpan(g, sp, s).lo, Some(sep.key))
    requires Child(g, s) in up' && up'[Child(g, s)] == gid
    requires sep.data.pageNo in span' && span'[sep.data.pageNo] == Span(Some(sep.key), SlotSpan(g, sp, s).hi)
    requires sep.data.pageNo in up' && up'[sep.data.pageNo] == gid
    ensures SlotsOk(AddSlot(g, s, sep), sp, span', up', gid)
  {
    var v := AddSlot(g, s, sep);
    forall t: nat | t <= |v.entries|
      ensures && Child(v, t) in span' && span'[Child(v, t)] == SlotSpan(v, sp, t)
              && Child(v, t) in up' && up'[Child(v, t)] == gid
    {
      if t < s {
        assert Child(v, t) == Child(g, t) && SlotSpan(v, sp, t) == SlotSpan(g, sp, t);
      } else if t == s {
        assert Child(v, t) == Child(g, s);
      } else if t == s + 1 {
        assert Child(v, t) == sep.data.pageNo;
      } else {
        assert Child(v, t) == Child(g, t - 1) && SlotSpan(v, sp, t) == SlotSpan(g, sp, t - 1);
      }
    }
  }

  // ---------------------------------------------------------------------
  // A leaf split
  // ---------------------------------------------------------------------

  /**
   * The halves of a full leaf split once the entry `e` joined it: the upper
   * half starts at key `c`; the lower half holds the leaf's keys below `c`,
   * the upper those from `c`, both strictly increasing.
   */
  lemma LeafHalvesOrdered(l: seq<KeyDataEntry>, sp: Span, e: KeyDataEntry, left: seq<KeyDataEntry>, right: seq<KeyDataEntry>)
    requires StrictlySorted(l) && (forall x :: x in l ==> InSpan(x.key, sp) && x.key != e.key) && InSpan(e.key, sp)
    requires Sorted(left + right) && multiset(left) + multiset(right) == multiset(l) + multiset{e}
    requires |left| > 0 && |right| > 0
    ensures StrictlySorted(left) && StrictlySorted(right)
    ensures Below(sp.lo, Some(right[0].key)) && Below(Some(right[0].key), sp.hi)
    ensures forall x :: x in left ==> InSpan(x.key, Span(sp.lo, Some(right[0].key)))
    ensures forall x :: x in right ==> InSpan(x.key, Span(Some(right[0].key), sp.hi))
  {
    var t := left + right;
    var m := |left|;
    assert multiset(t) == multiset(left) + multiset(right);
    LeafInsertOrdered(l, sp, t, e);
    forall i, j | 0 <= i < j < m ensures left[i].key < left[j].key {
      assert t[i] == left[i] && t[j] == left[j];
    }
    forall i, j | 0 <= i < j < |right| ensures right[i].key < right[j].key {
      assert t[m + i] == right[i] && t[m + j] == right[j];
    }
    assert t[m] == right[0] && t[0] == left[0] && t[0] in t && t[m] in t;
    forall x | x in left ensures InSpan(x.key, Span(sp.lo, Some(right[0].key))) {
      var i :| 0 <= i < m && left[i] == x;
      assert t[i] == x && x in t;
    }
    forall x | x in right ensures InSpan(x.key, Span(Some(right[0].key), sp.hi)) {
      var i :| 0 <= i < |right| && right[i] == x;
      assert t[m + i] == x && x in t;
    }
  }

  /** Cutting the span of leaf `chain[i]` at `c` and giving the upper part to a new leaf linked in after it keeps the leaves tiled. */
  lemma SplicedChainSpans(span: Spans, chain: seq<PageId>, i: nat, n: PageId, c: Key)
    requires ChainSpans(span, chain) && i < |chain|
    requires forall a, b :: 0 <= a < b < |chain| ==> chain[a] != chain[b]
    requires forall j :: 0 <= j < |chain| ==> chain[j] != n
    ensures chain[i] in span && ChainSpans(CutSpan(span, chain[i], n, c), SplicedChain(chain, i, n))
  {
    var l := chain[i];
    var span', chain' := CutSpan(span, l, n, c), SplicedChain(chain, i, n);
    assert chain[i] in span;
    forall j | 0 <= j < |chain'| ensures chain'[j] in span' {
    }
    forall a, b | 0 <= a && b == a + 1 && b < |chain'|
      ensures span'[chain'[a]].hi.Some? && span'[chain'[a]].hi == span'[chain'[b]].lo
    {
      if b < i {
        Tiles(span, chain, a);
      } else if b == i {
        Tiles(span, chain, a);
      } else if a == i + 1 {
        Tiles(span, chain, i);
      } else if a > i + 1 {
        Tiles(span, chain, a - 1);
      }
    }
    if i + 1 < |chain| {
      assert chain'[|chain'| - 1] == chain[|chain| - 1];
    }
  }

  /** The store after a leaf split changes no index page, and no other leaf's kind or entries. */
  lemma SplicedKeeps(pages: Pages, chain: seq<PageId>, i: nat, n: PageId, left: SortedPage, right: SortedPage, o: PageId)
    requires ChainOk(pages, chain) && i < |chain| && INVALID_PAGE !in pages
    requires o in pages && o != chain[i] && o != n
    ensures o in Spliced(pages, chain[i], n, left, right)
    ensures Spliced(pages, chain[i], n, left, right)[o].nodeType == pages[o].nodeType
    ensures Spliced(pages, chain[i], n, left, right)[o].entries == pages[o].entries
    ensures pages[o].nodeType == IndexNode ==> Spliced(pages, chain[i], n, left, right)[o] == pages[o]
  {
    if i + 1 < |chain| {
      assert pages[chain[i]].nextPage == chain[i + 1];
    }
  }

  /**
   * A leaf split, seen from the order: the split leaf keeps the keys below
   * the first key `c` of the new leaf, the new leaf takes the rest of its
   * span, and the separator (c, new leaf) is pending for the parent; a
   * split root leaves two parentless halves that a new root will adopt.
   */
  lemma LeafSplitPending(pages: Pages, span: Spans, up: Parents, chain: seq<PageId>, root: PageId,
                         i: nat, n: PageId, left: SortedPage, right: SortedPage, e: KeyDataEntry)
    requires Ordered(pages, span, up, chain, root) && ChainOk(pages, chain) && INVALID_PAGE !in pages
    requires i < |chain| && chain[i] in span && InSpan(e.key, span[chain[i]])
    requires forall x :: x in pages[chain[i]].entries ==> x.key != e.key
    requires n !in pages && left.nodeType == LeafNode && right.nodeType == LeafNode
    requires Sorted(left.entries + right.entries) && 0 < |left.entries| && 0 < |right.entries|
    requires multiset(left.entries) + multiset(right.entries) == multiset(pages[chain[i]].entries) + multiset{e}
    ensures Pending(Spliced(pages, chain[i], n, left, right), CutSpan(span, chain[i], n, right.entries[0].key),
                    Sibling(up, chain[i], n), SplicedChain(chain, i, n), root, chain[i],
                    KeyDataEntry(right.entries[0].key, IndexData(n)))
  {
    var l := chain[i];
    var c := right.entries[0].key;
    var sep := KeyDataEntry(c, IndexData(n));
    var pages' := Spliced(pages, l, n, left, right);
    var span' := CutSpan(span, l, n, c);
    var up' := Sibling(up, l, n);
    var chain' := SplicedChain(chain, i, n);
    LeafOrdered(pages, span, up, chain, l);
    LeafHalvesOrdered(pages[l].entries, span[l], e, left.entries, right.entries);
    SplicedChainSpans(span, chain, i, n, c);
    assert n !in up;
    if l == root {
      forall o | o in pages' ensures PageSpanOk(pages', span', up', o) {
        if o != l && o != n {
          SplicedKeeps(pages, chain, i, n, left, right, o);
          assert PageSpanOk(pages, span, up, o);
          FrameSpanOk(pages, span, up, pages', span', up', o);
        }
      }
      assert RootPending(pages', span', up', chain', l, sep);
    } else {
      var g := up[l];
      assert g in pages && pages[g].nodeType == IndexNode;
      SplicedKeeps(pages, chain, i, n, left, right, g);
      forall s: nat | s <= |pages'[g].entries| && Child(pages'[g], s) == l
        ensures SpansOk(pages'[g := AddSlot(pages'[g], s, sep)], span', up', chain')
      {
        LeafSplitParentOk(pages, span, up, chain, root, i, n, left, right, e, s);
      }
    }
  }

  /** The parent of a split leaf, with the separator added after the leaf's slot, orders the store after the split. */
  lemma LeafSplitParentOk(pages: Pages, span: Spans, up: Parents, chain: seq<PageId>, root: PageId,
                          i: nat, n: PageId, left: SortedPage, right: SortedPage, e: KeyDataEntry, s: nat)
    requires Ordered(pages, span, up, chain, root) && ChainOk(pages, chain) && INVALID_PAGE !in pages
    requires i < |chain| && chain[i] != root && chain[i] in span
    requires n !in pages && left.nodeType == LeafNode && right.nodeType == LeafNode && 0 < |right.entries|
    requires StrictlySorted(left.entries) && StrictlySorted(right.entries)
    requires Below(span[chain[i]].lo, Some(right.entries[0].key)) && Below(Some(right.entries[0].key), span[chain[i]].hi)
    requires forall x :: x in left.entries ==> InSpan(x.key, Span(span[chain[i]].lo, Some(right.entries[0].key)))
    requires forall x :: x in right.entries ==> InSpan(x.key, Span(Some(right.entries[0].key), span[chain[i]].hi))
    requires ChainSpans(CutSpan(span, chain[i], n, right.entries[0].key), SplicedChain(chain, i, n))
    requires chain[i] in up && up[chain[i]] in pages && s <= |pages[up[chain[i]]].entries|
    requires Child(pages[up[chain[i]]], s) == chain[i]
    ensures var g := up[chain[i]];
            var sep := KeyDataEntry(right.entries[0].key, IndexData(n));
            var pages' := Spliced(pages, chain[i], n, left, right);
            SpansOk(pages'[g := AddSlot(pages[g], s, sep)], CutSpan(span, chain[i], n, right.entries[0].key),
                    Sibling(up, chain[i], n), SplicedChain(chain, i, n))
  {
    var l := chain[i];
    var g := up[l];
    var c := right.entries[0].key;
    var sep := KeyDataEntry(c, IndexData(n));
    var span' := CutSpan(span, l, n, c);
    var up' := Sibling(up, l, n);
    var pages'' := Spliced(pages, l, n, left, right)[g := AddSlot(pages[g], s, sep)];
    assert n !in up;
    assert pages[g].nodeType == IndexNode;
    ChildrenDistinct(pages, span, up, chain, g);
    assert PageSpanOk(pages, span, up, g);
    AddSlotOk(pages[g], g, span[g], s, sep, span, up, span', up');
    assert PageSpanOk(pages'', span', up', g);
    forall o | o in pages'' ensures PageSpanOk(pages'', span', up', o) {
      if o != l && o != n && o != g {
        SplicedKeeps(pages, chain, i, n, left, right, o);
        assert PageSpanOk(pages, span, up, o);
        FrameSpanOk(pages, span, up, pages'', span', up', o);
      }
    }
  }

  // ---------------------------------------------------------------------
  // Placing a separator
  // ---------------------------------------------------------------------

  /** Leaves keep their spans: the chain stays tiled. */
  lemma ChainSpansFrame(span: Spans, span': Spans, chain: seq<PageId>)
    requires ChainSpans(span, chain)
    requires forall j :: 0 <= j < |chain| ==> chain[j] in span' && span'[chain[j]] == span[chain[j]]
    ensures ChainSpans(span', chain)
  {
    forall a, b | 0 <= a && b == a + 1 && b < |chain|
      ensures span'[chain[a]].hi.Some? && span'[chain[a]].hi == span'[chain[b]].lo
    {
      Tiles(span, chain, a);
    }
  }

  /**
   * insertKey of a pending separator into the parent of the split page: a
   * sorted page holding the parent's entries and the separator is the
   * parent with the separator right after the split page's slot, and the
   * store is ordered again.
   */
  lemma ResolvePending(pages: Pages, span: Spans, up: Parents, chain: seq<PageId>, root: PageId,
                       x: PageId, sep: KeyDataEntry, s: nat, q: SortedPage)
    requires Pending(pages, span, up, chain, root, x, sep) && x != root
    requires s <= |pages[up[x]].entries| && Child(pages[up[x]], s) == x
    requires q.nodeType == pages[up[x]].nodeType && q.prevPage == pages[up[x]].prevPage && q.nextPage == pages[up[x]].nextPage
    requires Sorted(q.entries) && multiset(q.entries) == multiset(pages[up[x]].entries) + multiset{sep}
    ensures q == AddSlot(pages[up[x]], s, sep)
    ensures Ordered(pages[up[x] := q], span, up, chain, root)
  {
    var g := up[x];
    var v := AddSlot(pages[g], s, sep);
    var pages' := pages[g := v];
    assert SpansOk(pages', span, up, chain);
    ChildrenDistinct(pages', span, up, chain, g);
    var l := pages[g].entries;
    assert l == l[..s] + l[s..];
    assert multiset(v.entries) == multiset(l) + multiset{sep};
    SortedUnique(q.entries, v.entries);
  }

  /**
   * Root growth after the root `x` split: a new root page `t` holding only
   * the pending separator, with `x` as left link, orders the store; the
   * new root answers for every key and adopts both halves.
   */
  lemma GrowRootOrdered(pages: Pages, span: Spans, up: Parents, chain: seq<PageId>,
                        x: PageId, sep: KeyDataEntry, t: PageId)
    requires Pending(pages, span, up, chain, x, x, sep) && t !in pages
    requires forall j :: 0 <= j < |chain| ==> chain[j] in pages
    ensures Ordered(pages[t := SortedPage(IndexNode, [sep], x, INVALID_PAGE)], span[t := Whole],
                    up[x := t][sep.data.pageNo := t], chain, t)
  {
    var y := sep.data.pageNo;
    var root := SortedPage(IndexNode, [sep], x, INVALID_PAGE);
    var pages', span', up' := pages[t := root], span[t := Whole], up[x := t][y := t];
    assert RootPending(pages, span, up, chain, x, sep);
    assert Child(root, 0) == x && Child(root, 1) == y;
    assert PageSpanOk(pages', span', up', t);
    forall o | o in pages' ensures PageSpanOk(pages', span', up', o) {
      if o != t {
        assert PageSpanOk(pages, span, up, o);
        FrameSpanOk(pages, span, up, pages', span', up', o);
      }
    }
    ChainSpansFrame(span, span', chain);
  }

  // ---------------------------------------------------------------------
  // An index split
  // ---------------------------------------------------------------------

  /** Under well-formed heights, a child sits one level below its index page. */
  lemma ChildLevel(pages: Pages, level: Levels, q: PageId, s: nat)
    requires LevelsOk(pages, level) && q in pages && pages[q].nodeType == IndexNode && s <= |pages[q].entries|
    ensures q in level && Child(pages[q], s) in level && level[Child(pages[q], s)] == level[q] - 1
  {
    assert LinksBelow(pages, level, pages[q], level[q]);
    if s > 0 {
      assert pages[q].entries[s - 1] in pages[q].entries;
    }
  }

  /**
   * An index split, read on the page `v` that holds the pending separator:
   * the lower half is the entries before position |left|, the entry at that
   * position is the pushed-up key with the upper half's left link, and the
   * upper half is the rest.
   */
  lemma IndexHalves(v: seq<KeyDataEntry>, left: seq<KeyDataEntry>, right: seq<KeyDataEntry>, q: KeyDataEntry)
    requires StrictlySorted(v) && Sorted(left) && Sorted(right)
    requires forall x :: x in left ==> x.key <= q.key
    requires forall x :: x in right ==> q.key <= x.key
    requires multiset(left) + multiset(right) + multiset{q} == multiset(v)
    ensures |left| < |v| && left == v[..|left|] && v[|left|] == q && right == v[|left| + 1..]
  {
    var t := left + [q] + right;
    SortedConcat(left, [q]);
    SortedConcat(left + [q], right);
    assert multiset(t) == multiset(v);
    SortedUnique(t, v);
    assert t[..|left|] == left && t[|left|] == q && t[|left| + 1..] == right;
  }

  /** The halves' slots are slots of the page they were cut from, with the halves' spans cut at the pushed-up key. */
  lemma SplitSlots(v: SortedPage, sp: Span, left: SortedPage, right: SortedPage)
    requires |left.entries| < |v.entries|
    requires left.entries == v.entries[..|left.entries|] && left.prevPage == v.prevPage
    requires right.entries == v.entries[|left.entries| + 1..] && right.prevPage == ChildOf(v.entries[|left.entries|])
    ensures forall t: nat {:trigger Child(left, t)} :: t <= |left.entries| ==>
              && Child(left, t) == Child(v, t)
              && SlotSpan(left, Span(sp.lo, Some(v.entries[|left.entries|].key)), t) == SlotSpan(v, sp, t)
    ensures forall t: nat {:trigger Child(right, t)} :: t <= |right.entries| ==>
              && Child(right, t) == Child(v, |left.entries| + 1 + t)
              && SlotSpan(right, Span(Some(v.entries[|left.entries|].key), sp.hi), t) == SlotSpan(v, sp, |left.entries| + 1 + t)
  {
  }

  /** The children of the upper half were children of the split page. */
  lemma AdoptedChildren(v: SortedPage, left: SortedPage, right: SortedPage, c: PageId) returns (t: nat)
    requires |left.entries| < |v.entries|
    requires right.entries == v.entries[|left.entries| + 1..] && right.prevPage == ChildOf(v.entries[|left.entries|])
    requires c in Children(right)
    ensures |left.entries| < t <= |v.entries| && c == Child(v, t)
  {
    var u: nat :| u <= |right.entries| && Child(right, u) == c;
    t := |left.entries| + 1 + u;
    assert Child(right, u) == Child(v, t);
  }

  /**
   * The children the upper half of a split index page adopts sit one level
   * below it, so the pages at its height and above keep their parents.
   */
  lemma AdoptKeepsUp(pages: Pages, level: Levels, up: Parents, p: PageId, s0: nat, sep: KeyDataEntry,
                     left: SortedPage, right: SortedPage, n: PageId)
    requires LevelsOk(pages, level) && p in pages && pages[p].nodeType == IndexNode && s0 <= |pages[p].entries|
    requires sep.data.IndexData? && sep.data.pageNo in level && level[sep.data.pageNo] == level[p] - 1
    requires n !in up
    requires var v := AddSlot(pages[p], s0, sep);
             && |left.entries| < |v.entries| && right.entries == v.entries[|left.entries| + 1..]
             && right.prevPage == ChildOf(v.entries[|left.entries|])
    ensures UpKept(level, up, Sibling(Adopt(up, right, n), p, n), level[p])
  {
    var v := AddSlot(pages[p], s0, sep);
    forall c | c in Children(right) ensures c in level && level[c] == level[p] - 1 {
      var t := AdoptedChildren(v, left, right, c);
      if t <= s0 {
        assert Child(v, t) == Child(pages[p], t);
        ChildLevel(pages, level, p, t);
      } else if t == s0 + 1 {
        assert Child(v, t) == sep.data.pageNo;
      } else {
        assert Child(v, t) == Child(pages[p], t - 1);
        ChildLevel(pages, level, p, t - 1);
      }
    }
  }

  /**
   * The halves of an index split keep their part of the order: the lower
   * half, under the old id, answers for the keys below the pushed-up key,
   * the upper half, under the new id, for the rest, and the children of the
   * upper half move under it.
   */
  lemma IndexHalvesSpanOk(pages: Pages, span: Spans, up: Parents, chain: seq<PageId>, p: PageId, n: PageId,
                          left: SortedPage, right: SortedPage, w: Pages)
    requires SpansOk(pages, span, up, chain) && p in pages && p in span && pages[p].nodeType == IndexNode && n !in pages
    requires p !in up || up[p] != p
    requires left.nodeType == IndexNode && right.nodeType == IndexNode
    requires |left.entries| < |pages[p].entries|
    requires left.entries == pages[p].entries[..|left.entries|] && left.prevPage == pages[p].prevPage
    requires right.entries == pages[p].entries[|left.entries| + 1..]
    requires right.prevPage == ChildOf(pages[p].entries[|left.entries|])
    requires p in w && n in w && w[p] == left && w[n] == right
    ensures var pk := pages[p].entries[|left.entries|].key;
            && PageSpanOk(w, CutSpan(span, p, n, pk), Sibling(Adopt(up, right, n), p, n), p)
            && PageSpanOk(w, CutSpan(span, p, n, pk), Sibling(Adopt(up, right, n), p, n), n)
    ensures forall c :: c in Children(right) ==> c in up && up[c] == p
  {
    var v := pages[p];
    var m := |left.entries|;
    var pk := v.entries[m].key;
    var span' := CutSpan(span, p, n, pk);
    var up' := Sibling(Adopt(up, right, n), p, n);
    ChildrenDistinct(pages, span, up, chain, p);
    SlotsNonEmpty(pages, span, up, chain, p);
    SlotsIncrease(v, span[p]);
    assert PageSpanOk(pages, span, up, p);
    SplitSlots(v, span[p], left, right);
    assert n !in up;
    forall c | c in Children(right) ensures c in up && up[c] == p {
      var t := AdoptedChildren(v, left, right, c);
    }
    forall t: nat | t <= m
      ensures && Child(left, t) in span' && span'[Child(left, t)] == SlotSpan(left, span'[p], t)
              && Child(left, t) in up' && up'[Child(left, t)] == p
    {
      var c := Child(v, t);
      if c in Children(right) {
        var t' := AdoptedChildren(v, left, right, c);
      }
    }
    forall t: nat | t <= |right.entries|
      ensures && Child(right, t) in span' && span'[Child(right, t)] == SlotSpan(right, span'[n], t)
              && Child(right, t) in up' && up'[Child(right, t)] == n
    {
      assert Child(right, t) in Children(right);
    }
    assert v.entries[0].key <= pk <= v.entries[|v.entries| - 1].key;
  }

  /**
   * A page that an index split of page `p` into `p` and `n` does not touch
   * keeps its part of the order: its children are neither of the halves nor
   * children of the upper half.
   */
  lemma UntouchedSpanOk(pages: Pages, span: Spans, up: Parents, chain: seq<PageId>, p: PageId, n: PageId,
                        right: SortedPage, pk: Key, w: Pages, o: PageId)
    requires SpansOk(pages, span, up, chain) && p in span && n !in pages
    requires forall c :: c in Children(right) ==> c in up && up[c] == p
    requires o in pages && o != p && o != n && o in w && w[o] == pages[o]
    requires p in up ==> up[p] != o
    ensures PageSpanOk(w, CutSpan(span, p, n, pk), Sibling(Adopt(up, right, n), p, n), o)
  {
    var span' := CutSpan(span, p, n, pk);
    var up' := Sibling(Adopt(up, right, n), p, n);
    assert PageSpanOk(pages, span, up, o);
    assert n !in up;
    FrameSpanOk(pages, span, up, w, span', up', o);
  }

  /** The parents after an index split are index pages of the new store. */
  lemma SplitParentsOk(pages: Pages, span: Spans, up: Parents, chain: seq<PageId>, p: PageId, n: PageId,
                       right: SortedPage, w: Pages)
    requires SpansOk(pages, span, up, chain) && p in pages && n !in pages
    requires forall c :: c in Children(right) ==> c in up && up[c] == p
    requires forall o :: o in pages ==> o in w && w[o].nodeType == pages[o].nodeType
    requires n in w && w[n].nodeType == IndexNode
    ensures var up' := Sibling(Adopt(up, right, n), p, n);
            && up'.Keys <= w.Keys
            && forall c {:trigger up'[c]} :: c in up' ==> up'[c] in w && w[up'[c]].nodeType == IndexNode && up'[c] != c
  {
    var up' := Sibling(Adopt(up, right, n), p, n);
    forall c | c in up' ensures c in w && up'[c] in w && w[up'[c]].nodeType == IndexNode && up'[c] != c {
      if c != n && c !in Children(right) {
        assert c in up && up'[c] == up[c];
      }
    }
  }

  /**
   * An index split, seen from the order: page `p`, the parent of the
   * split page `x`, holds the pending separator `sep` once more than it can
   * take. Its lower half stays under `p` and answers for the keys below the
   * pushed-up key, the upper half goes to the new page `n` with the rest of
   * the span and adopts its children, and the pushed-up entry is pending for
   * the parent of `p`; a split root leaves two parentless halves.
   */
  lemma IndexSplitPending(pages: Pages, level: Levels, span: Spans, up: Parents, chain: seq<PageId>, root: PageId,
                          x: PageId, sep: KeyDataEntry, s0: nat, n: PageId,
                          left: SortedPage, right: SortedPage, pushUp: KeyDataEntry)
    requires Pending(pages, span, up, chain, root, x, sep) && x != root && LevelsOk(pages, level)
    requires up[x] in span && s0 <= |pages[up[x]].entries| && Child(pages[up[x]], s0) == x
    requires forall j :: 0 <= j < |chain| ==> chain[j] in pages && pages[chain[j]].nodeType == LeafNode
    requires n !in pages && left.nodeType == IndexNode && right.nodeType == IndexNode
    requires Sorted(left.entries) && Sorted(right.entries) && left.prevPage == pages[up[x]].prevPage
    requires forall y :: y in left.entries ==> y.key <= pushUp.key
    requires forall y :: y in right.entries ==> pushUp.key <= y.key
    requires pushUp.data == IndexData(n)
    requires multiset(left.entries) + multiset(right.entries) + multiset{KeyDataEntry(pushUp.key, IndexData(right.prevPage))}
          == multiset(pages[up[x]].entries) + multiset{sep}
    ensures Pending(pages[up[x] := left][n := right], CutSpan(span, up[x], n, pushUp.key),
                    Sibling(Adopt(up, right, n), up[x], n), chain, root, up[x], pushUp)
  {
    var p := up[x];
    var v := AddSlot(pages[p], s0, sep);
    var pv := pages[p := v];
    PendingHalves(pages, span, up, chain, root, x, sep, s0, left, right, pushUp);
    var w := pages[p := left][n := right];
    if p == root {
      IndexSplitRootPending(pv, span, up, chain, p, n, left, right, pushUp);
      assert pv[p := left][n := right] == w;
    } else {
      IndexSplitParentPending(pages, level, span, up, chain, root, x, sep, s0, n, left, right, pushUp);
    }
  }

  /** The index split of IndexSplitPending leaves the parents of the pages at the split page's height and above alone. */
  lemma IndexSplitKeepsUp(pages: Pages, level: Levels, span: Spans, up: Parents, chain: seq<PageId>, root: PageId,
                          x: PageId, sep: KeyDataEntry, s0: nat, n: PageId,
                          left: SortedPage, right: SortedPage, pushUp: KeyDataEntry)
    requires Pending(pages, span, up, chain, root, x, sep) && x != root && LevelsOk(pages, level)
    requires s0 <= |pages[up[x]].entries| && Child(pages[up[x]], s0) == x
    requires n !in pages && left.nodeType == IndexNode && right.nodeType == IndexNode
    requires Sorted(left.entries) && Sorted(right.entries)
    requires forall y :: y in left.entries ==> y.key <= pushUp.key
    requires forall y :: y in right.entries ==> pushUp.key <= y.key
    requires multiset(left.entries) + multiset(right.entries) + multiset{KeyDataEntry(pushUp.key, IndexData(right.prevPage))}
          == multiset(pages[up[x]].entries) + multiset{sep}
    requires sep.data.pageNo in level && up[x] in level && level[sep.data.pageNo] == level[up[x]] - 1
    ensures UpKept(level, up, Sibling(Adopt(up, right, n), up[x], n), level[up[x]])
  {
    PendingHalves(pages, span, up, chain, root, x, sep, s0, left, right, pushUp);
    assert n !in up;
    AdoptKeepsUp(pages, level, up, up[x], s0, sep, left, right, n);
  }

  /**
   * The page holding a pending separator, read with the separator in its
   * slot: the store is ordered, and an index split of it has the lower half
   * before the pushed-up entry and the upper half after it.
   */
  lemma PendingHalves(pages: Pages, span: Spans, up: Parents, chain: seq<PageId>, root: PageId,
                      x: PageId, sep: KeyDataEntry, s0: nat, left: SortedPage, right: SortedPage, pushUp: KeyDataEntry)
    requires Pending(pages, span, up, chain, root, x, sep) && x != root
    requires s0 <= |pages[up[x]].entries| && Child(pages[up[x]], s0) == x
    requires Sorted(left.entries) && Sorted(right.entries)
    requires forall y :: y in left.entries ==> y.key <= pushUp.key
    requires forall y :: y in right.entries ==> pushUp.key <= y.key
    requires multiset(left.entries) + multiset(right.entries) + multiset{KeyDataEntry(pushUp.key, IndexData(right.prevPage))}
          == multiset(pages[up[x]].entries) + multiset{sep}
    ensures SpansOk(pages[up[x] := AddSlot(pages[up[x]], s0, sep)], span, up, chain)
    ensures var v := AddSlot(pages[up[x]], s0, sep).entries;
            && |left.entries| < |v| && left.entries == v[..|left.entries|]
            && v[|left.entries|] == KeyDataEntry(pushUp.key, IndexData(right.prevPage))
            && right.entries == v[|left.entries| + 1..]
  {
    var p := up[x];
    var v := AddSlot(pages[p], s0, sep);
    var pv := pages[p := v];
    assert SpansOk(pv, span, up, chain);
    var l := pages[p].entries;
    assert l == l[..s0] + l[s0..];
    assert multiset(v.entries) == multiset(l) + multiset{sep};
    ChildrenDistinct(pv, span, up, chain, p);
    IndexHalves(v.entries, left.entries, right.entries, KeyDataEntry(pushUp.key, IndexData(right.prevPage)));
  }

  /** A split index page other than the root: the pushed-up entry is pending for its parent. */
  lemma IndexSplitParentPending(pages: Pages, level: Levels, span: Spans, up: Parents, chain: seq<PageId>, root: PageId,
                                x: PageId, sep: KeyDataEntry, s0: nat, n: PageId,
                                left: SortedPage, right: SortedPage, pushUp: KeyDataEntry)
    requires ParentPending(pages, span, up, chain, root, x, sep) && up[x] != root && LevelsOk(pages, level)
    requires up[x] in span && s0 <= |pages[up[x]].entries| && Child(pages[up[x]], s0) == x
    requires SpansOk(pages[up[x] := AddSlot(pages[up[x]], s0, sep)], span, up, chain)
    requires forall j :: 0 <= j < |chain| ==> chain[j] in pages && pages[chain[j]].nodeType == LeafNode
    requires n !in pages && left.nodeType == IndexNode && right.nodeType == IndexNode
    requires var v := AddSlot(pages[up[x]], s0, sep).entries;
             && |left.entries| < |v| && left.entries == v[..|left.entries|] && left.prevPage == pages[up[x]].prevPage
             && v[|left.entries|] == KeyDataEntry(pushUp.key, IndexData(right.prevPage)) && right.entries == v[|left.entries| + 1..]
    requires pushUp.data == IndexData(n)
    ensures ParentPending(pages[up[x] := left][n := right], CutSpan(span, up[x], n, pushUp.key),
                          Sibling(Adopt(up, right, n), up[x], n), chain, root, up[x], pushUp)
    ensures up[x] in up && up[x] in Sibling(Adopt(up, right, n), up[x], n)
            && Sibling(Adopt(up, right, n), up[x], n)[up[x]] == up[up[x]]
  {
    var p := up[x];
    var w := pages[p := left][n := right];
    var span' := CutSpan(span, p, n, pushUp.key);
    var up' := Sibling(Adopt(up, right, n), p, n);
    assert p in up by {
      assert p in pages;
    }
    var g := up[p];
    assert n !in up;
    forall s1: nat | s1 <= |w[g].entries| && Child(w[g], s1) == p
      ensures SpansOk(w[g := AddSlot(w[g], s1, pushUp)], span', up', chain)
    {
      ChildLevel(pages, level, g, s1);
      IndexSplitParentOk(pages, span, up, chain, x, sep, s0, n, left, right, pushUp, s1);
    }
    forall c | c in Children(right) ensures c in up && up[c] == p {
      var t := AdoptedChildren(AddSlot(pages[p], s0, sep), left, right, c);
      assert PageSpanOk(pages[p := AddSlot(pages[p], s0, sep)], span, up, p);
    }
  }

  /** A split root index page leaves two parentless halves answering for the keys below and from the pushed-up key. */
  lemma IndexSplitRootPending(pages: Pages, span: Spans, up: Parents, chain: seq<PageId>, p: PageId, n: PageId,
                              left: SortedPage, right: SortedPage, pushUp: KeyDataEntry)
    requires SpansOk(pages, span, up, chain) && p in pages && p in span && span[p] == Whole && p !in up
    requires ParentedBut(pages, up, p, p)
    requires forall j :: 0 <= j < |chain| ==> chain[j] in pages && pages[chain[j]].nodeType == LeafNode
    requires pages[p].nodeType == IndexNode && n !in pages && left.nodeType == IndexNode && right.nodeType == IndexNode
    requires |left.entries| < |pages[p].entries|
    requires left.entries == pages[p].entries[..|left.entries|] && left.prevPage == pages[p].prevPage
    requires pages[p].entries[|left.entries|] == KeyDataEntry(pushUp.key, IndexData(right.prevPage))
    requires right.entries == pages[p].entries[|left.entries| + 1..]
    requires pushUp.data == IndexData(n)
    ensures RootPending(pages[p := left][n := right], CutSpan(span, p, n, pushUp.key),
                        Sibling(Adopt(up, right, n), p, n), chain, p, pushUp)
  {
    var w := pages[p := left][n := right];
    var span' := CutSpan(span, p, n, pushUp.key);
    var up' := Sibling(Adopt(up, right, n), p, n);
    assert n !in up;
    IndexHalvesSpanOk(pages, span, up, chain, p, n, left, right, w);
    forall o | o in w ensures PageSpanOk(w, span', up', o) {
      if o != p && o != n {
        UntouchedSpanOk(pages, span, up, chain, p, n, right, pushUp.key, w, o);
      }
    }
    SplitParentsOk(pages, span, up, chain, p, n, right, w);
    ChainSpansFrame(span, span', chain);
  }

  /** The parent of a split index page, with the pushed-up entry added after the page's slot, orders the store after the split. */
  lemma IndexSplitParentOk(pages: Pages, span: Spans, up: Parents, chain: seq<PageId>,
                           x: PageId, sep: KeyDataEntry, s0: nat, n: PageId,
                           left: SortedPage, right: SortedPage, pushUp: KeyDataEntry, s1: nat)
    requires x in up && up[x] in pages && up[x] in span && s0 <= |pages[up[x]].entries| && Child(pages[up[x]], s0) == x
    requires SpansOk(pages[up[x] := AddSlot(pages[up[x]], s0, sep)], span, up, chain)
    requires forall j :: 0 <= j < |chain| ==> chain[j] in pages && pages[chain[j]].nodeType == LeafNode
    requires pages[up[x]].nodeType == IndexNode && n !in pages && left.nodeType == IndexNode && right.nodeType == IndexNode
    requires var v := AddSlot(pages[up[x]], s0, sep).entries;
             && |left.entries| < |v| && left.entries == v[..|left.entries|] && left.prevPage == pages[up[x]].prevPage
             && v[|left.entries|] == KeyDataEntry(pushUp.key, IndexData(right.prevPage)) && right.entries == v[|left.entries| + 1..]
    requires pushUp.data == IndexData(n)
    requires up[x] in up && up[up[x]] != up[x] && up[up[x]] in pages
    requires s1 <= |pages[up[up[x]]].entries| && Child(pages[up[up[x]]], s1) == up[x]
    ensures var p := up[x];
            var g := up[p];
            var w := pages[p := left][n := right];
            SpansOk(w[g := AddSlot(pages[g], s1, pushUp)], CutSpan(span, p, n, pushUp.key),
                    Sibling(Adopt(up, right, n), p, n), chain)
  {
    var p := up[x];
    var g := up[p];
    var v := AddSlot(pages[p], s0, sep);
    var pv := pages[p := v];
    var span' := CutSpan(span, p, n, pushUp.key);
    var up' := Sibling(Adopt(up, right, n), p, n);
    var w := pages[p := left][n := right][g := AddSlot(pages[g], s1, pushUp)];
    assert n !in up;
    IndexHalvesSpanOk(pv, span, up, chain, p, n, left, right, w);
    assert pages[g].nodeType == IndexNode && pv[g] == pages[g];
    ChildrenDistinct(pv, span, up, chain, g);
    assert PageSpanOk(pv, span, up, g);
    AddSlotOk(pages[g], g, span[g], s1, pushUp, span, up, span', up');
    assert PageSpanOk(w, span', up', g);
    forall o | o in w ensures PageSpanOk(w, span', up', o) {
      if o != p && o != n && o != g {
        UntouchedSpanOk(pv, span, up, chain, p, n, right, pushUp.key, w, o);
      }
    }
    SplitParentsOk(pv, span, up, chain, p, n, right, w);
    ChainSpansFrame(span, span', chain);
  }

  /** While a separator is pending, the parent of the split page answers for a span. */
  lemma PendingParentInSpan(pages: Pages, span: Spans, up: Parents, chain: seq<PageId>, root: PageId,
                            x: PageId, sep: KeyDataEntry, s: nat)
    requires Pending(pages, span, up, chain, root, x, sep) && x != root
    requires s <= |pages[up[x]].entries| && Child(pages[up[x]], s) == x
    ensures up[x] in span
  {
    var pv := pages[up[x] := AddSlot(pages[up[x]], s, sep)];
    assert SpansOk(pv, span, up, chain);
    assert PageSpanOk(pv, span, up, up[x]);
  }
}
