/**
 * The shape of a B+ tree held in a page store, and how each structural
 * update of an insertion keeps it.
 *
 * The page store maps page ids to page values. Beside it the model keeps two
 * ghost records: the height of every page above the leaves, and the chain of
 * leaf ids in the order the sibling links give. The entries of the tree, in
 * key order, are the concatenation of the entries of the leaves along that
 * chain.
 */
module BTreeInvariants {
  import opened BT
  import opened BTSortedPage
  import opened BTLeafPage
  import opened BTIndexPage

  type Pages = map<PageId, SortedPage>
  type Levels = map<PageId, nat>

  /** A page is sorted, within capacity, holds payloads of its own kind; an index page is never empty. */
  ghost predicate PageOk(p: SortedPage, leafCapacity: nat, indexCapacity: nat)
  {
    && Sorted(p.entries)
    && (p.nodeType == LeafNode ==> IsLeafPage(p) && |p.entries| <= leafCapacity)
    && (p.nodeType == IndexNode ==> IsIndexPage(p) && 0 < |p.entries| <= indexCapacity)
  }

  /** The left link and every child of index page `p`, at height `h`, are pages at height `h - 1`. */
  ghost predicate LinksBelow(pages: Pages, level: Levels, p: SortedPage, h: int)
  {
    && p.prevPage in pages && p.prevPage in level && level[p.prevPage] == h - 1
    && forall x :: x in p.entries ==>
         && x.data.IndexData? && x.data.pageNo in pages
         && x.data.pageNo in level && level[x.data.pageNo] == h - 1
  }

  /**
   * Leaves have height 0; the links of an index page lead one level down.
   * The links of a page are looked at only when the proof names them, so
   * that following a link does not by itself unfold the page it leads to.
   */
  ghost predicate LevelsOk(pages: Pages, level: Levels)
  {
    && level.Keys == pages.Keys
    && (forall id {:trigger pages[id]} :: id in pages ==> (pages[id].nodeType == LeafNode <==> level[id] == 0))
    && (forall id {:trigger LinksBelow(pages, level, pages[id], level[id])} ::
          id in pages && pages[id].nodeType == IndexNode ==> LinksBelow(pages, level, pages[id], level[id]))
  }

  /**
   * `chain` lists every leaf exactly once, and the sibling fields of the
   * leaves link them, in both directions, in that order.
   */
  ghost predicate ChainOk(pages: Pages, chain: seq<PageId>)
  {
    && |chain| > 0
    && (forall i, j :: 0 <= i < j < |chain| ==> chain[i] != chain[j])
    && (forall i :: 0 <= i < |chain| ==> chain[i] in pages && pages[chain[i]].nodeType == LeafNode)
    && (forall id {:trigger pages[id]} :: id in pages && pages[id].nodeType == LeafNode ==> id in chain)
    && pages[chain[0]].prevPage == INVALID_PAGE
    && pages[chain[|chain| - 1]].nextPage == INVALID_PAGE
    && NextLinks(pages, chain)
    && PrevLinks(pages, chain)
  }

  /** The next link of every leaf but the last names its successor on the chain. */
  ghost predicate NextLinks(pages: Pages, chain: seq<PageId>)
  {
    forall i, j {:trigger chain[i], chain[j]} :: 0 <= i && j == i + 1 && j < |chain| ==>
      chain[i] in pages && pages[chain[i]].nextPage == chain[j]
  }

  /** The previous link of every leaf but the first names its predecessor on the chain. */
  ghost predicate PrevLinks(pages: Pages, chain: seq<PageId>)
  {
    forall i, j {:trigger chain[i], chain[j]} :: 0 <= i && j == i + 1 && j < |chain| ==>
      chain[j] in pages && pages[chain[j]].prevPage == chain[i]
  }

  /** Everything a tree keeps between operations, whatever its root. */
  ghost predicate TreeInv(pages: Pages, level: Levels, chain: seq<PageId>,
                          leafCapacity: nat, indexCapacity: nat, nextFree: nat)
  {
    && 2 <= leafCapacity && 2 <= indexCapacity
    && (forall id :: id in pages ==> 0 <= id < nextFree)
    && (forall id {:trigger PageOk(pages[id], leafCapacity, indexCapacity)} ::
          id in pages ==> PageOk(pages[id], leafCapacity, indexCapacity))
    && LevelsOk(pages, level)
    && ChainOk(pages, chain)
  }

  /** The page reached from `id` by following left links down to a leaf. */
  ghost function LeftmostFrom(pages: Pages, level: Levels, id: PageId): PageId
    decreases if id in level then level[id] else 0
  {
    if && id in pages && pages[id].nodeType == IndexNode && id in level
       && pages[id].prevPage in level && level[pages[id].prevPage] < level[id]
    then LeftmostFrom(pages, level, pages[id].prevPage)
    else id
  }

  /** The root: its leftmost descent ends at the first leaf; a leaf root is the only leaf. */
  ghost predicate RootOk(pages: Pages, level: Levels, chain: seq<PageId>, root: PageId)
  {
    && |chain| > 0 && root in pages
    && LeftmostFrom(pages, level, root) == chain[0]
    && (pages[root].nodeType == LeafNode ==> chain == [root])
  }

  /** The entries of the leaves along `chain`, concatenated. */
  ghost function ChainEntries(pages: Pages, chain: seq<PageId>): seq<KeyDataEntry>
  {
    if chain == [] then []
    else (if chain[0] in pages then pages[chain[0]].entries else []) + ChainEntries(pages, chain[1..])
  }

  /** Position in the concatenation at which the entries of leaf `chain[j]` begin. */
  ghost function Offset(pages: Pages, chain: seq<PageId>, j: nat): nat
    requires j <= |chain|
  {
    |ChainEntries(pages, chain[..j])|
  }

  /** Every page present before is present after, with the same height, kind and left link. */
  ghost predicate Grows(pages: Pages, level: Levels, pages': Pages, level': Levels)
  {
    forall id {:trigger pages[id]} :: id in pages ==>
      && id in pages' && id in level'
      && (id in level ==> level'[id] == level[id])
      && pages'[id].nodeType == pages[id].nodeType
      && (pages[id].nodeType == IndexNode ==> pages'[id].prevPage == pages[id].prevPage)
  }

  lemma GrowsTrans(p0: Pages, l0: Levels, p1: Pages, l1: Levels, p2: Pages, l2: Levels)
    requires Grows(p0, l0, p1, l1) && Grows(p1, l1, p2, l2)
    ensures Grows(p0, l0, p2, l2)
  {
    forall id | id in p0 ensures id in p2 && id in l2 && (id in l0 ==> l2[id] == l0[id]) {
      assert id in p1;
    }
  }

  lemma {:induction false} ChainEntriesAppend(pages: Pages, a: seq<PageId>, b: seq<PageId>)
    ensures ChainEntries(pages, a + b) == ChainEntries(pages, a) + ChainEntries(pages, b)
  {
    if a != [] {
      assert (a + b)[0] == a[0];
      assert (a + b)[1..] == a[1..] + b;
      ChainEntriesAppend(pages, a[1..], b);
    } else {
      assert a + b == b;
    }
  }

  /** The concatenation only depends on the entries of the leaves on the chain. */
  lemma {:induction false} ChainEntriesFrame(pages: Pages, pages': Pages, chain: seq<PageId>)
    requires forall i :: 0 <= i < |chain| ==>
      chain[i] in pages && chain[i] in pages' && pages'[chain[i]].entries == pages[chain[i]].entries
    ensures ChainEntries(pages', chain) == ChainEntries(pages, chain)
  {
    if chain != [] {
      assert chain[0] == chain[0];
      ChainEntriesFrame(pages, pages', chain[1..]);
    }
  }

  /** The concatenation around the leaf at position `i` of the chain. */
  lemma ChainEntriesAround(pages: Pages, chain: seq<PageId>, i: nat)
    requires i < |chain| && chain[i] in pages
    ensures ChainEntries(pages, chain) ==
      ChainEntries(pages, chain[..i]) + pages[chain[i]].entries + ChainEntries(pages, chain[i + 1..])
  {
    assert chain == chain[..i] + ([chain[i]] + chain[i + 1..]);
    ChainEntriesAppend(pages, chain[..i], [chain[i]] + chain[i + 1..]);
    assert ([chain[i]] + chain[i + 1..])[1..] == chain[i + 1..];
  }

  /** The entries of leaf `chain[j]` sit at offset `Offset(j)` of the concatenation. */
  lemma ChainEntriesAt(pages: Pages, chain: seq<PageId>, j: nat, s: nat)
    requires j < |chain| && chain[j] in pages && s < |pages[chain[j]].entries|
    ensures Offset(pages, chain, j) + s < |ChainEntries(pages, chain)|
    ensures ChainEntries(pages, chain)[Offset(pages, chain, j) + s] == pages[chain[j]].entries[s]
  {
    ChainEntriesAround(pages, chain, j);
  }

  /** Offsets of consecutive leaves differ by the size of the first. */
  lemma OffsetNext(pages: Pages, chain: seq<PageId>, j: nat)
    requires j < |chain| && chain[j] in pages
    ensures Offset(pages, chain, j + 1) == Offset(pages, chain, j) + |pages[chain[j]].entries|
  {
    assert chain[..j + 1] == chain[..j] + [chain[j]];
    ChainEntriesAppend(pages, chain[..j], [chain[j]]);
    assert ChainEntries(pages, [chain[j]]) == pages[chain[j]].entries + ChainEntries(pages, []);
  }

  /** A grown store with the same heights and left links gives the same leftmost descent. */
  lemma LeftmostFrame(pages: Pages, level: Levels, pages': Pages, level': Levels, id: PageId)
    requires LevelsOk(pages, level) && Grows(pages, level, pages', level')
    requires id in pages
    ensures LeftmostFrom(pages', level', id) == LeftmostFrom(pages, level, id)
    decreases level[id]
  {
    if pages[id].nodeType == IndexNode {
      var left := pages[id].prevPage;
      assert LinksBelow(pages, level, pages[id], level[id]);
      LeftmostFrame(pages, level, pages', level', left);
    }
  }

  /** Links into a store stay links after it grows with heights kept. */
  lemma LinksBelowGrow(pages: Pages, level: Levels, pages': Pages, level': Levels, p: SortedPage, h: int)
    requires LinksBelow(pages, level, p, h)
    requires forall id :: id in pages ==> id in pages' && id in level' && (id in level ==> level'[id] == level[id])
    ensures LinksBelow(pages', level', p, h)
  {
  }

  /**
   * Replacing the entries of a leaf (kind and sibling fields unchanged, page
   * still well formed) keeps the tree; its entries trade those of the old
   * page for those of the new one.
   */
  lemma LeafUpdateKeepsInvariant(pages: Pages, level: Levels, chain: seq<PageId>,
                                 leafCapacity: nat, indexCapacity: nat, nextFree: nat,
                                 id: PageId, p': SortedPage, root: PageId)
    requires TreeInv(pages, level, chain, leafCapacity, indexCapacity, nextFree)
    requires id in pages && pages[id].nodeType == LeafNode
    requires p'.nodeType == LeafNode && p'.prevPage == pages[id].prevPage && p'.nextPage == pages[id].nextPage
    requires PageOk(p', leafCapacity, indexCapacity)
    ensures TreeInv(pages[id := p'], level, chain, leafCapacity, indexCapacity, nextFree)
    ensures Grows(pages, level, pages[id := p'], level)
    ensures multiset(ChainEntries(pages[id := p'], chain)) + multiset(pages[id].entries)
         == multiset(ChainEntries(pages, chain)) + multiset(p'.entries)
    ensures RootOk(pages, level, chain, root) ==> RootOk(pages[id := p'], level, chain, root)
  {
    var pages' := pages[id := p'];
    LeafUpdateKeepsLevels(pages, level, id, p');
    LeafUpdateKeepsChain(pages, chain, id, p');
    LeafUpdateContents(pages, chain, id, p');
    if RootOk(pages, level, chain, root) {
      LeftmostFrame(pages, level, pages', level, root);
    }
  }

  lemma LeafUpdateKeepsLevels(pages: Pages, level: Levels, id: PageId, p': SortedPage)
    requires LevelsOk(pages, level)
    requires id in pages && pages[id].nodeType == LeafNode && p'.nodeType == LeafNode
    ensures LevelsOk(pages[id := p'], level)
  {
    var pages' := pages[id := p'];
    forall q | q in pages' && pages'[q].nodeType == IndexNode
      ensures LinksBelow(pages', level, pages'[q], level[q])
    {
      LinksBelowGrow(pages, level, pages', level, pages[q], level[q]);
    }
  }

  lemma LeafUpdateKeepsChain(pages: Pages, chain: seq<PageId>, id: PageId, p': SortedPage)
    requires ChainOk(pages, chain)
    requires id in pages && pages[id].nodeType == LeafNode
    requires p'.nodeType == LeafNode && p'.prevPage == pages[id].prevPage && p'.nextPage == pages[id].nextPage
    ensures ChainOk(pages[id := p'], chain)
  {
  }

  lemma LeafUpdateContents(pages: Pages, chain: seq<PageId>, id: PageId, p': SortedPage)
    requires ChainOk(pages, chain) && id in chain
    ensures multiset(ChainEntries(pages[id := p'], chain)) + multiset(pages[id].entries)
         == multiset(ChainEntries(pages, chain)) + multiset(p'.entries)
  {
    var i :| 0 <= i < |chain| && chain[i] == id;
    ReplaceInChain(pages, chain, i, p');
  }

  /** Cancelling the entries a leaf had before and after an update from both sides of the trade. */
  lemma MultisetCancel(a: multiset<KeyDataEntry>, b: multiset<KeyDataEntry>,
                       c: multiset<KeyDataEntry>, d: multiset<KeyDataEntry>)
    requires a + b == c + (b + d)
    ensures a == c + d
  {
    forall x ensures a[x] == (c + d)[x] {
      assert (a + b)[x] == (c + (b + d))[x];
    }
  }

  /** Replacing the page at position `i` of a chain without repetitions changes only its own part. */
  lemma ReplaceInChain(pages: Pages, chain: seq<PageId>, i: nat, p': SortedPage)
    requires i < |chain|
    requires forall a, b :: 0 <= a < b < |chain| ==> chain[a] != chain[b]
    requires forall k :: 0 <= k < |chain| ==> chain[k] in pages
    ensures ChainEntries(pages[chain[i] := p'], chain)
         == ChainEntries(pages, chain[..i]) + p'.entries + ChainEntries(pages, chain[i + 1..])
    ensures ChainEntries(pages, chain)
         == ChainEntries(pages, chain[..i]) + pages[chain[i]].entries + ChainEntries(pages, chain[i + 1..])
  {
    var pages' := pages[chain[i] := p'];
    ChainEntriesAround(pages, chain, i);
    ChainEntriesAround(pages', chain, i);
    var pre, post := chain[..i], chain[i + 1..];
    forall k | 0 <= k < |pre| ensures pre[k] in pages && pre[k] in pages' && pages'[pre[k]] == pages[pre[k]] {
      assert pre[k] == chain[k];
    }
    forall k | 0 <= k < |post| ensures post[k] in pages && post[k] in pages' && pages'[post[k]] == pages[post[k]] {
      assert post[k] == chain[i + 1 + k];
    }
    ChainEntriesFrame(pages, pages', pre);
    ChainEntriesFrame(pages, pages', post);
  }

  /**
   * Replacing an index page by one of the same kind and left link whose
   * links lead to pages one level down keeps the tree and its entries.
   */
  lemma IndexUpdateKeepsInvariant(pages: Pages, level: Levels, chain: seq<PageId>,
                                  leafCapacity: nat, indexCapacity: nat, nextFree: nat,
                                  id: PageId, p': SortedPage, root: PageId)
    requires TreeInv(pages, level, chain, leafCapacity, indexCapacity, nextFree)
    requires id in pages && pages[id].nodeType == IndexNode
    requires p'.nodeType == IndexNode && p'.prevPage == pages[id].prevPage
    requires PageOk(p', leafCapacity, indexCapacity) && LinksBelow(pages, level, p', level[id])
    ensures TreeInv(pages[id := p'], level, chain, leafCapacity, indexCapacity, nextFree)
    ensures Grows(pages, level, pages[id := p'], level)
    ensures ChainEntries(pages[id := p'], chain) == ChainEntries(pages, chain)
    ensures RootOk(pages, level, chain, root) ==> RootOk(pages[id := p'], level, chain, root)
  {
    IndexUpdateKeepsLevels(pages, level, id, p');
    IndexPageKeepsChain(pages, chain, id, p');
    if RootOk(pages, level, chain, root) {
      LeftmostFrame(pages, level, pages[id := p'], level, root);
    }
  }

  lemma IndexUpdateKeepsLevels(pages: Pages, level: Levels, id: PageId, p': SortedPage)
    requires LevelsOk(pages, level)
    requires id in pages && pages[id].nodeType == IndexNode
    requires p'.nodeType == IndexNode && LinksBelow(pages, level, p', level[id])
    ensures LevelsOk(pages[id := p'], level)
  {
    var pages' := pages[id := p'];
    forall q | q in pages' && pages'[q].nodeType == IndexNode
      ensures LinksBelow(pages', level, pages'[q], level[q])
    {
      LinksBelowGrow(pages, level, pages', level, pages'[q], level[q]);
    }
  }

  /**
   * Splitting index page `id` into `lower` (kept under `id`) and `upper`
   * (under the newId id `nextFree`, at the same height) keeps the tree and
   * its entries, provided both halves link one level down.
   */
  lemma IndexSplitKeepsInvariant(pages: Pages, level: Levels, chain: seq<PageId>,
                                 leafCapacity: nat, indexCapacity: nat, nextFree: nat,
                                 id: PageId, lower: SortedPage, upper: SortedPage, root: PageId)
    requires TreeInv(pages, level, chain, leafCapacity, indexCapacity, nextFree)
    requires id in pages && pages[id].nodeType == IndexNode
    requires lower.nodeType == IndexNode && lower.prevPage == pages[id].prevPage
    requires upper.nodeType == IndexNode
    requires PageOk(lower, leafCapacity, indexCapacity) && LinksBelow(pages, level, lower, level[id])
    requires PageOk(upper, leafCapacity, indexCapacity) && LinksBelow(pages, level, upper, level[id])
    ensures var pages' := pages[id := lower][nextFree := upper];
            var level' := level[nextFree := level[id]];
            && TreeInv(pages', level', chain, leafCapacity, indexCapacity, nextFree + 1)
            && Grows(pages, level, pages', level')
            && ChainEntries(pages', chain) == ChainEntries(pages, chain)
            && (RootOk(pages, level, chain, root) ==> RootOk(pages', level', chain, root))
  {
    IndexUpdateKeepsInvariant(pages, level, chain, leafCapacity, indexCapacity, nextFree, id, lower, root);
    var pages1 := pages[id := lower];
    LinksBelowGrow(pages, level, pages1, level, upper, level[id]);
    AddIndexPageKeepsInvariant(pages1, level, chain, leafCapacity, indexCapacity, nextFree, upper, level[id], root);
    GrowsTrans(pages, level, pages1, level, pages1[nextFree := upper], level[nextFree := level[id]]);
  }

  /**
   * Storing a new index page under the next free id, at height `h`, keeps
   * the tree and its entries when the page links one level down.
   */
  lemma AddIndexPageKeepsInvariant(pages: Pages, level: Levels, chain: seq<PageId>,
                                   leafCapacity: nat, indexCapacity: nat, nextFree: nat,
                                   p: SortedPage, h: nat, root: PageId)
    requires TreeInv(pages, level, chain, leafCapacity, indexCapacity, nextFree)
    requires p.nodeType == IndexNode && PageOk(p, leafCapacity, indexCapacity) && LinksBelow(pages, level, p, h)
    ensures var pages' := pages[nextFree := p];
            var level' := level[nextFree := h];
            && TreeInv(pages', level', chain, leafCapacity, indexCapacity, nextFree + 1)
            && Grows(pages, level, pages', level')
            && ChainEntries(pages', chain) == ChainEntries(pages, chain)
            && (RootOk(pages, level, chain, root) ==> RootOk(pages', level', chain, root))
  {
    assert nextFree !in pages;
    AddPageKeepsLevels(pages, level, nextFree, p, h);
    IndexPageKeepsChain(pages, chain, nextFree, p);
    if RootOk(pages, level, chain, root) {
      LeftmostFrame(pages, level, pages[nextFree := p], level[nextFree := h], root);
    }
  }

  /** A new index page that links one level down keeps the heights consistent. */
  lemma AddPageKeepsLevels(pages: Pages, level: Levels, newId: PageId, p: SortedPage, h: nat)
    requires LevelsOk(pages, level) && newId !in pages
    requires p.nodeType == IndexNode && LinksBelow(pages, level, p, h)
    ensures LevelsOk(pages[newId := p], level[newId := h])
    ensures Grows(pages, level, pages[newId := p], level[newId := h])
  {
    var pages', level' := pages[newId := p], level[newId := h];
    forall q | q in pages' && pages'[q].nodeType == IndexNode
      ensures LinksBelow(pages', level', pages'[q], level'[q])
    {
      LinksBelowGrow(pages, level, pages', level', pages'[q], level'[q]);
    }
  }

  /** Storing an index page, new or in place of an index page, changes neither the leaf chain nor its entries. */
  lemma IndexPageKeepsChain(pages: Pages, chain: seq<PageId>, newId: PageId, p: SortedPage)
    requires ChainOk(pages, chain) && p.nodeType == IndexNode
    requires newId in pages ==> pages[newId].nodeType == IndexNode
    ensures ChainOk(pages[newId := p], chain)
    ensures ChainEntries(pages[newId := p], chain) == ChainEntries(pages, chain)
  {
    forall k | 0 <= k < |chain| ensures chain[k] in pages && chain[k] != newId {
    }
    ChainEntriesFrame(pages, pages[newId := p], chain);
  }

  /**
   * The store after leaf `cur` is split into `lower` (kept under `cur`) and
   * `upper` (under `newId`): the old right neighbour's left link now names
   * the new leaf.
   */
  function Spliced(pages: Pages, cur: PageId, newId: PageId, lower: SortedPage, upper: SortedPage): Pages
    requires cur in pages
  {
    var next := pages[cur].nextPage;
    var linked := if next != INVALID_PAGE && next in pages
                  then pages[next := pages[next].(prevPage := newId)] else pages;
    linked[cur := lower][newId := upper]
  }

  /** The leaf chain with `newId` inserted after position `i`. */
  ghost function SplicedChain(chain: seq<PageId>, i: nat, newId: PageId): (c: seq<PageId>)
    requires i < |chain|
    ensures |c| == |chain| + 1 && c[i + 1] == newId
    ensures forall k {:trigger c[k]} :: 0 <= k <= i ==> c[k] == chain[k]
    ensures forall k {:trigger c[k]} :: i + 1 < k < |c| ==> c[k] == chain[k - 1]
  {
    chain[..i + 1] + [newId] + chain[i + 1..]
  }

  /** The split hypotheses shared by the splice lemmas. */
  ghost predicate SpliceOk(pages: Pages, chain: seq<PageId>, i: nat, newId: PageId,
                           lower: SortedPage, upper: SortedPage)
  {
    && ChainOk(pages, chain) && i < |chain|
    && newId !in pages && newId != INVALID_PAGE && INVALID_PAGE !in pages
    && lower.nodeType == LeafNode && upper.nodeType == LeafNode
    && lower.prevPage == pages[chain[i]].prevPage && lower.nextPage == newId
    && upper.prevPage == chain[i] && upper.nextPage == pages[chain[i]].nextPage
  }

  /** The successor of a split leaf is the next leaf on the chain, or none for the last one. */
  lemma SpliceSuccessor(pages: Pages, chain: seq<PageId>, i: nat, newId: PageId, lower: SortedPage, upper: SortedPage)
    requires SpliceOk(pages, chain, i, newId, lower, upper)
    ensures var next := pages[chain[i]].nextPage;
            && (i + 1 < |chain| ==> next == chain[i + 1] && next in pages && next != INVALID_PAGE)
            && (i + 1 == |chain| ==> next == INVALID_PAGE)
  {
  }

  lemma SpliceMembers(pages: Pages, chain: seq<PageId>, i: nat, newId: PageId, lower: SortedPage, upper: SortedPage)
    requires SpliceOk(pages, chain, i, newId, lower, upper)
    ensures var pages' := Spliced(pages, chain[i], newId, lower, upper);
            var chain' := SplicedChain(chain, i, newId);
            && (forall a, b :: 0 <= a < b < |chain'| ==> chain'[a] != chain'[b])
            && (forall k :: 0 <= k < |chain'| ==> chain'[k] in pages' && pages'[chain'[k]].nodeType == LeafNode)
            && (forall q :: q in pages' && pages'[q].nodeType == LeafNode ==> q in chain')
  {
    var pages' := Spliced(pages, chain[i], newId, lower, upper);
    var chain' := SplicedChain(chain, i, newId);
    forall a, b | 0 <= a < b < |chain'| ensures chain'[a] != chain'[b] {
      if b <= i {
      } else if b == i + 1 {
        assert chain'[a] in pages;
      } else if a == i + 1 {
        assert chain'[b] in pages;
      } else if a <= i {
        assert chain'[b] == chain[b - 1];
      } else {
        assert chain'[a] == chain[a - 1];
      }
    }
    forall k | 0 <= k < |chain'| ensures chain'[k] in pages' && pages'[chain'[k]].nodeType == LeafNode {
      if k <= i {
        assert chain'[k] == chain[k];
      } else if k > i + 1 {
        assert chain'[k] == chain[k - 1];
      }
    }
    forall q | q in pages' && pages'[q].nodeType == LeafNode ensures q in chain' {
      if q != newId {
        assert q in pages && pages[q].nodeType == LeafNode;
        var k :| 0 <= k < |chain| && chain[k] == q;
        if k <= i {
          assert chain'[k] == q;
        } else {
          assert chain'[k + 1] == q;
        }
      } else {
        assert chain'[i + 1] == q;
      }
    }
  }

  lemma SpliceEnds(pages: Pages, chain: seq<PageId>, i: nat, newId: PageId, lower: SortedPage, upper: SortedPage)
    requires SpliceOk(pages, chain, i, newId, lower, upper)
    ensures var pages' := Spliced(pages, chain[i], newId, lower, upper);
            var chain' := SplicedChain(chain, i, newId);
            && chain'[0] in pages' && pages'[chain'[0]].prevPage == INVALID_PAGE
            && chain'[|chain'| - 1] in pages' && pages'[chain'[|chain'| - 1]].nextPage == INVALID_PAGE
  {
    var pages' := Spliced(pages, chain[i], newId, lower, upper);
    var chain' := SplicedChain(chain, i, newId);
    SpliceSuccessor(pages, chain, i, newId, lower, upper);
    if i + 1 == |chain| {
      assert chain'[|chain'| - 1] == newId;
    } else {
      assert chain'[|chain'| - 1] == chain[|chain| - 1];
      assert chain[|chain| - 1] != chain[i];
    }
    if i > 0 {
      assert chain[0] != chain[i];
      assert i + 1 < |chain| ==> chain[0] != chain[i + 1];
    }
  }

  lemma SpliceNextLinks(pages: Pages, chain: seq<PageId>, i: nat, newId: PageId, lower: SortedPage, upper: SortedPage)
    requires SpliceOk(pages, chain, i, newId, lower, upper)
    ensures var pages' := Spliced(pages, chain[i], newId, lower, upper);
            var chain' := SplicedChain(chain, i, newId);
            NextLinks(pages', chain')
  {
    var pages' := Spliced(pages, chain[i], newId, lower, upper);
    var chain' := SplicedChain(chain, i, newId);
    SpliceSuccessor(pages, chain, i, newId, lower, upper);
    forall k | 0 <= k < |chain'| - 1 ensures chain'[k] in pages' && pages'[chain'[k]].nextPage == chain'[k + 1] {
      if k < i {
        assert chain'[k] == chain[k] && chain'[k + 1] == chain[k + 1] && chain[k] != chain[i];
        assert pages'[chain[k]].nextPage == pages[chain[k]].nextPage;
      } else if k == i {
      } else if k == i + 1 {
        assert chain'[k + 1] == chain[i + 1];
      } else {
        assert chain'[k] == chain[k - 1] && chain'[k + 1] == chain[k] && chain[k - 1] != chain[i];
        assert pages'[chain[k - 1]].nextPage == pages[chain[k - 1]].nextPage;
      }
    }
  }

  lemma SplicePrevLinks(pages: Pages, chain: seq<PageId>, i: nat, newId: PageId, lower: SortedPage, upper: SortedPage)
    requires SpliceOk(pages, chain, i, newId, lower, upper)
    ensures var pages' := Spliced(pages, chain[i], newId, lower, upper);
            var chain' := SplicedChain(chain, i, newId);
            PrevLinks(pages', chain')
  {
    var pages' := Spliced(pages, chain[i], newId, lower, upper);
    var chain' := SplicedChain(chain, i, newId);
    SpliceSuccessor(pages, chain, i, newId, lower, upper);
    forall k | 0 < k < |chain'| ensures chain'[k] in pages' && pages'[chain'[k]].prevPage == chain'[k - 1] {
      if k < i {
        assert chain'[k] == chain[k] && chain'[k - 1] == chain[k - 1] && chain[k] != chain[i];
        assert i + 1 < |chain| ==> chain[k] != chain[i + 1];
        assert pages'[chain[k]].prevPage == pages[chain[k]].prevPage;
      } else if k == i {
        assert chain'[k] == chain[i] && chain'[k - 1] == chain[i - 1];
      } else if k == i + 1 {
      } else if k == i + 2 {
        assert chain'[k] == chain[i + 1];
      } else {
        assert chain'[k] == chain[k - 1] && chain'[k - 1] == chain[k - 2];
        assert chain[k - 1] != chain[i] && chain[k - 1] != chain[i + 1];
        assert pages'[chain[k - 1]].prevPage == pages[chain[k - 1]].prevPage;
      }
    }
  }

  /** Splitting a leaf and linking the new leaf right after it keeps the leaf chain well formed. */
  lemma SpliceKeepsChain(pages: Pages, chain: seq<PageId>, i: nat, newId: PageId,
                         lower: SortedPage, upper: SortedPage)
    requires SpliceOk(pages, chain, i, newId, lower, upper)
    ensures ChainOk(Spliced(pages, chain[i], newId, lower, upper), SplicedChain(chain, i, newId))
  {
    SpliceMembers(pages, chain, i, newId, lower, upper);
    SpliceEnds(pages, chain, i, newId, lower, upper);
    SpliceNextLinks(pages, chain, i, newId, lower, upper);
    SplicePrevLinks(pages, chain, i, newId, lower, upper);
  }

  lemma SpliceKeepsPages(pages: Pages, level: Levels, leafCapacity: nat, indexCapacity: nat, nextFree: nat,
                          id: PageId, lower: SortedPage, upper: SortedPage)
    requires id in pages && pages[id].nodeType == LeafNode
    requires pages[id].nextPage in pages ==> pages[pages[id].nextPage].nodeType == LeafNode
    requires forall q :: q in pages ==> 0 <= q < nextFree && PageOk(pages[q], leafCapacity, indexCapacity)
    requires LevelsOk(pages, level)
    requires lower.nodeType == LeafNode && upper.nodeType == LeafNode
    requires PageOk(lower, leafCapacity, indexCapacity) && PageOk(upper, leafCapacity, indexCapacity)
    ensures var pages' := Spliced(pages, id, nextFree, lower, upper);
            var level' := level[nextFree := 0];
            && (forall q :: q in pages' ==> 0 <= q < nextFree + 1 && PageOk(pages'[q], leafCapacity, indexCapacity))
            && LevelsOk(pages', level')
            && Grows(pages, level, pages', level')
  {
    var pages' := Spliced(pages, id, nextFree, lower, upper);
    var level' := level[nextFree := 0];
    var next := pages[id].nextPage;
    assert nextFree !in pages;
    forall q | q in pages' ensures 0 <= q < nextFree + 1 && PageOk(pages'[q], leafCapacity, indexCapacity) {
      if q != id && q != nextFree && q != next {
        assert pages'[q] == pages[q];
      }
    }
    forall q | q in pages' && pages'[q].nodeType == IndexNode
      ensures LinksBelow(pages', level', pages'[q], level'[q])
    {
      assert q != id && q != nextFree && q != next;
      assert pages'[q] == pages[q];
      LinksBelowGrow(pages, level, pages', level', pages[q], level[q]);
    }
  }

  /** The store after a split, seen page by page. */
  lemma SplicedAt(pages: Pages, id: PageId, newId: PageId, lower: SortedPage, upper: SortedPage, q: PageId)
    requires id in pages && newId !in pages
    ensures var pages' := Spliced(pages, id, newId, lower, upper);
            && (q == newId ==> q in pages' && pages'[q] == upper)
            && (q == id ==> q in pages' && pages'[q] == lower)
            && (q != id && q != newId && q in pages ==>
                  && q in pages' && pages'[q].entries == pages[q].entries
                  && pages'[q].nodeType == pages[q].nodeType && pages'[q].nextPage == pages[q].nextPage
                  && (q != pages[id].nextPage ==> pages'[q] == pages[q]))
  {
  }

  lemma SpliceContents(pages: Pages, chain: seq<PageId>, i: nat, newId: PageId, lower: SortedPage, upper: SortedPage)
    requires i < |chain| && newId !in pages
    requires forall a, b :: 0 <= a < b < |chain| ==> chain[a] != chain[b]
    requires forall k :: 0 <= k < |chain| ==> chain[k] in pages
    ensures var pages' := Spliced(pages, chain[i], newId, lower, upper);
            ChainEntries(pages', SplicedChain(chain, i, newId))
            == ChainEntries(pages, chain[..i]) + lower.entries + upper.entries + ChainEntries(pages, chain[i + 1..])
  {
    var id := chain[i];
    var pages' := Spliced(pages, id, newId, lower, upper);
    var chain' := SplicedChain(chain, i, newId);
    SplicedAt(pages, id, newId, lower, upper, id);
    SplicedAt(pages, id, newId, lower, upper, newId);
    ChainEntriesAround(pages', chain', i);
    var pre, post := chain[..i], chain[i + 1..];
    assert chain'[..i] == pre;
    assert chain'[i + 1..] == [newId] + post;
    forall k | 0 <= k < |pre| ensures pre[k] in pages && pre[k] in pages' && pages'[pre[k]].entries == pages[pre[k]].entries {
      assert pre[k] == chain[k] && pre[k] != id;
      SplicedAt(pages, id, newId, lower, upper, pre[k]);
    }
    forall k | 0 <= k < |post| ensures post[k] in pages && post[k] in pages' && pages'[post[k]].entries == pages[post[k]].entries {
      assert post[k] == chain[i + 1 + k] && post[k] != id;
      SplicedAt(pages, id, newId, lower, upper, post[k]);
    }
    ChainEntriesFrame(pages, pages', pre);
    ChainEntriesFrame(pages, pages', post);
    ChainEntriesAppend(pages', [newId], post);
    assert ChainEntries(pages', [newId]) == upper.entries + ChainEntries(pages', []);
  }

  /**
   * Splitting leaf `id` into `lower` (kept under `id`) and `upper` (a new
   * leaf under `nextFree`, linked right after it) keeps the tree. The tree's
   * entries trade those of the old leaf for those of the two halves, and
   * the leftmost descent from the root still ends at the first leaf.
   */
  lemma LeafSplitKeepsInvariant(pages: Pages, level: Levels, chain: seq<PageId>,
                                leafCapacity: nat, indexCapacity: nat, nextFree: nat,
                                id: PageId, lower: SortedPage, upper: SortedPage, root: PageId)
      returns (i: nat)
    requires TreeInv(pages, level, chain, leafCapacity, indexCapacity, nextFree)
    requires id in pages && pages[id].nodeType == LeafNode
    requires lower.nodeType == LeafNode && upper.nodeType == LeafNode
    requires lower.prevPage == pages[id].prevPage && lower.nextPage == nextFree
    requires upper.prevPage == id && upper.nextPage == pages[id].nextPage
    requires PageOk(lower, leafCapacity, indexCapacity) && PageOk(upper, leafCapacity, indexCapacity)
    ensures i < |chain| && chain[i] == id
    ensures var pages' := Spliced(pages, id, nextFree, lower, upper);
            var level' := level[nextFree := 0];
            var chain' := SplicedChain(chain, i, nextFree);
            && TreeInv(pages', level', chain', leafCapacity, indexCapacity, nextFree + 1)
            && Grows(pages, level, pages', level')
            && multiset(ChainEntries(pages', chain')) + multiset(pages[id].entries)
               == multiset(ChainEntries(pages, chain)) + multiset(lower.entries) + multiset(upper.entries)
            && (RootOk(pages, level, chain, root) ==>
                  && root in pages' && LeftmostFrom(pages', level', root) == chain'[0]
                  && (root != id ==> RootOk(pages', level', chain', root)))
  {
    i :| 0 <= i < |chain| && chain[i] == id;
    var pages' := Spliced(pages, id, nextFree, lower, upper);
    var level' := level[nextFree := 0];
    var chain' := SplicedChain(chain, i, nextFree);
    assert nextFree !in pages && INVALID_PAGE !in pages;
    assert SpliceOk(pages, chain, i, nextFree, lower, upper);
    SpliceKeepsChain(pages, chain, i, nextFree, lower, upper);
    SpliceSuccessor(pages, chain, i, nextFree, lower, upper);
    SpliceKeepsPages(pages, level, leafCapacity, indexCapacity, nextFree, id, lower, upper);
    assert TreeInv(pages', level', chain', leafCapacity, indexCapacity, nextFree + 1);
    SpliceContents(pages, chain, i, nextFree, lower, upper);
    ChainEntriesAround(pages, chain, i);
    SwapMiddle(ChainEntries(pages, chain[..i]), pages[id].entries, ChainEntries(pages, chain[i + 1..]),
               lower.entries, upper.entries);
    SpliceKeepsRoot(pages, level, chain, i, nextFree, lower, upper, root);
  }

  lemma SwapMiddle(pre: seq<KeyDataEntry>, mid: seq<KeyDataEntry>, post: seq<KeyDataEntry>,
                   a: seq<KeyDataEntry>, b: seq<KeyDataEntry>)
    ensures multiset(pre + a + b + post) + multiset(mid) == multiset(pre + mid + post) + multiset(a) + multiset(b)
  {
  }

  lemma SpliceKeepsRoot(pages: Pages, level: Levels, chain: seq<PageId>, i: nat, newId: PageId,
                        lower: SortedPage, upper: SortedPage, root: PageId)
    requires SpliceOk(pages, chain, i, newId, lower, upper) && LevelsOk(pages, level)
    requires var pages' := Spliced(pages, chain[i], newId, lower, upper);
             && Grows(pages, level, pages', level[newId := 0])
             && ChainOk(pages', SplicedChain(chain, i, newId))
    ensures var pages' := Spliced(pages, chain[i], newId, lower, upper);
            var level' := level[newId := 0];
            var chain' := SplicedChain(chain, i, newId);
            RootOk(pages, level, chain, root) ==>
              && root in pages' && LeftmostFrom(pages', level', root) == chain'[0]
              && (root != chain[i] ==> RootOk(pages', level', chain', root))
  {
    var pages' := Spliced(pages, chain[i], newId, lower, upper);
    var level' := level[newId := 0];
    if RootOk(pages, level, chain, root) {
      LeftmostFrame(pages, level, pages', level', root);
      if pages[root].nodeType == LeafNode {
        assert root == chain[i] && i == 0;
      }
    }
  }

  /**
   * Growing the tree by one level: a new index page under `nextFree` with
   * the single entry (key, sibling) and the old root as its left link
   * becomes the root; the leaves and their entries stay as they were.
   */
  lemma GrowRootKeepsInvariant(pages: Pages, level: Levels, chain: seq<PageId>,
                               leafCapacity: nat, indexCapacity: nat, nextFree: nat,
                               oldRoot: PageId, newRoot: SortedPage)
    requires TreeInv(pages, level, chain, leafCapacity, indexCapacity, nextFree)
    requires oldRoot in pages && LeftmostFrom(pages, level, oldRoot) == chain[0]
    requires newRoot.nodeType == IndexNode && newRoot.prevPage == oldRoot && |newRoot.entries| == 1
    requires newRoot.entries[0].data.IndexData?
    requires newRoot.entries[0].data.pageNo in pages && level[newRoot.entries[0].data.pageNo] == level[oldRoot]
    ensures var pages' := pages[nextFree := newRoot];
            var level' := level[nextFree := level[oldRoot] + 1];
            && TreeInv(pages', level', chain, leafCapacity, indexCapacity, nextFree + 1)
            && Grows(pages, level, pages', level')
            && ChainEntries(pages', chain) == ChainEntries(pages, chain)
            && RootOk(pages', level', chain, nextFree)
  {
    forall x | x in newRoot.entries ensures x == newRoot.entries[0] {
    }
    assert PageOk(newRoot, leafCapacity, indexCapacity);
    assert LinksBelow(pages, level, newRoot, level[oldRoot] + 1);
    AddIndexPageKeepsInvariant(pages, level, chain, leafCapacity, indexCapacity, nextFree,
                               newRoot, level[oldRoot] + 1, oldRoot);
    LeftmostFrame(pages, level, pages[nextFree := newRoot], level[nextFree := level[oldRoot] + 1], oldRoot);
  }
}
