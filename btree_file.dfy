/**
 * BTreeFile: the tree engine. It owns the page store and the header page,
 * validates keys, inserts with split propagation and root growth, and
 * deletes by descending to one leaf.
 *
 * Pages are values in the store `pages`; an operation on a page reads it
 * from the store and writes the new value back. Page allocation hands out
 * the id `nextFree`, which no page in the store uses yet.
 */
module BTree {
  import opened BT
  import opened BTSortedPage
  import opened BTLeafPage
  import opened BTIndexPage
  import opened BTreeHeaderPage
  import opened BTreeInvariants
  import opened BTreeSplit
  import opened BTreeOrder

  /** What insert reports: done, or which check turned the key away, or the tree is closed. */
  datatype Status = Ok | KeyTooLong | KeyNotMatch | TreeClosed

  /**
   * The checks of insert, in their order: the key's length against the
   * header's maximum, then the key's class against the header's key type
   * (an integer key needs ATTR_INTEGER, a string key ATTR_STRING, any other
   * class is refused).
   */
  function CheckKey(key: KeyClass, maxKeyFieldLength: int, keyType: int): (r: Status)
    ensures r != TreeClosed
    ensures r == KeyTooLong <==> key.length > maxKeyFieldLength
    ensures r == Ok <==>
      && key.length <= maxKeyFieldLength
      && ((key.kind == IntegerKind && keyType == ATTR_INTEGER) || (key.kind == StringKind && keyType == ATTR_STRING))
  {
    if key.length > maxKeyFieldLength then KeyTooLong
    else match key.kind
      case IntegerKind => if keyType != ATTR_INTEGER then KeyNotMatch else Ok
      case StringKind => if keyType != ATTR_STRING then KeyNotMatch else Ok
      case OtherKind => KeyNotMatch
  }

  /** A separator handed up to a parent: a child page in the store at height `l`. */
  ghost predicate Separator(pages: Pages, level: Levels, e: KeyDataEntry, l: int)
  {
    e.data.IndexData? && e.data.pageNo in pages && e.data.pageNo in level && level[e.data.pageNo] == l
  }

  /** Every page higher than `l` is still there, unchanged. */
  ghost predicate SameAbove(pages: Pages, level: Levels, pages': Pages, l: int)
  {
    forall q {:trigger pages[q]} :: q in pages && q in level && level[q] > l ==> q in pages' && pages'[q] == pages[q]
  }

  /**
   * The leaf search reaches from page `id`: follow getPageNoByKey while on
   * an index page.
   */
  ghost function LeafFor(pages: Pages, level: Levels, id: PageId, key: Key): PageId
    decreases if id in level then level[id] else 0
  {
    if id in pages && id in level && pages[id].nodeType == IndexNode && IsIndexPage(pages[id]) && |pages[id].entries| > 0
    then
      var child := GetPageNoByKey(pages[id], key);
      if child in level && level[child] < level[id] then LeafFor(pages, level, child, key) else id
    else id
  }

  /** In a well-formed tree the search from any page ends on a leaf of the chain. */
  lemma {:induction false} LeafForIsLeaf(pages: Pages, level: Levels, chain: seq<PageId>,
                                         leafCapacity: nat, indexCapacity: nat, nextFree: nat,
                                         id: PageId, key: Key)
    requires TreeInv(pages, level, chain, leafCapacity, indexCapacity, nextFree)
    requires id in pages
    ensures LeafFor(pages, level, id, key) in pages
    ensures pages[LeafFor(pages, level, id, key)].nodeType == LeafNode
    ensures LeafFor(pages, level, id, key) in chain
    decreases level[id]
  {
    if pages[id].nodeType == IndexNode {
      var child := ChildLink(pages, level, chain, leafCapacity, indexCapacity, nextFree, id, key);
      LeafForIsLeaf(pages, level, chain, leafCapacity, indexCapacity, nextFree, child, key);
    }
  }

  /** The child getPageNoByKey picks on an index page of the tree is a page one level down. */
  lemma ChildLink(pages: Pages, level: Levels, chain: seq<PageId>,
                  leafCapacity: nat, indexCapacity: nat, nextFree: nat,
                  id: PageId, key: Key) returns (child: PageId)
    requires TreeInv(pages, level, chain, leafCapacity, indexCapacity, nextFree)
    requires id in pages && pages[id].nodeType == IndexNode
    ensures IsIndexPage(pages[id]) && |pages[id].entries| > 0
    ensures child == GetPageNoByKey(pages[id], key)
    ensures child in pages && child in level && level[child] == level[id] - 1
  {
    assert PageOk(pages[id], leafCapacity, indexCapacity);
    child := GetPageNoByKey(pages[id], key);
    GetPageNoByKeyIsALink(pages[id], key);
    assert LinksBelow(pages, level, pages[id], level[id]);
    if child != GetLeftLink(pages[id]) {
      var i :| 0 <= i < |pages[id].entries| && ChildData(pages[id].entries)[i] == IndexData(child);
      assert pages[id].entries[i] in pages[id].entries;
    }
  }

  /** The next link of a leaf is either none or another leaf of the store. */
  lemma NextLeaf(pages: Pages, chain: seq<PageId>, id: PageId)
    requires ChainOk(pages, chain) && id in pages && pages[id].nodeType == LeafNode
    ensures pages[id].nextPage == INVALID_PAGE
         || (pages[id].nextPage in pages && pages[pages[id].nextPage].nodeType == LeafNode)
  {
    var i :| 0 <= i < |chain| && chain[i] == id;
    if i + 1 < |chain| {
      assert pages[id].nextPage == chain[i + 1];
    }
  }

  /** Every page of a well-formed tree has the layout its node type demands. */
  lemma PageShape(pages: Pages, level: Levels, chain: seq<PageId>,
                  leafCapacity: nat, indexCapacity: nat, nextFree: nat, id: PageId)
    requires TreeInv(pages, level, chain, leafCapacity, indexCapacity, nextFree) && id in pages
    ensures pages[id].nodeType == LeafNode ==> IsLeafPage(pages[id])
    ensures pages[id].nodeType == IndexNode ==> IsIndexPage(pages[id])
  {
    assert PageOk(pages[id], leafCapacity, indexCapacity);
  }

  /**
   * Removing slot `i` of a leaf keeps the tree well formed, keeps the root's
   * leftmost leaf, and takes exactly that one entry out of the tree's contents.
   */
  lemma LeafRemovalKeepsInvariant(pages: Pages, level: Levels, chain: seq<PageId>,
                                  leafCapacity: nat, indexCapacity: nat, nextFree: nat,
                                  id: PageId, i: nat, root: PageId)
    requires TreeInv(pages, level, chain, leafCapacity, indexCapacity, nextFree)
    requires RootOk(pages, level, chain, root)
    requires id in pages && pages[id].nodeType == LeafNode && i < |pages[id].entries|
    ensures var q := pages[id].(entries := RemoveAt(pages[id].entries, i));
      && TreeInv(pages[id := q], level, chain, leafCapacity, indexCapacity, nextFree)
      && RootOk(pages[id := q], level, chain, root)
      && pages[id].entries[i] in ChainEntries(pages, chain)
      && multiset(ChainEntries(pages, chain))
         == multiset(ChainEntries(pages[id := q], chain)) + multiset{pages[id].entries[i]}
  {
    var p := pages[id];
    var q := p.(entries := RemoveAt(p.entries, i));
    assert PageOk(p, leafCapacity, indexCapacity);
    RemoveAtKeeps(p.entries, i);
    assert PageOk(q, leafCapacity, indexCapacity);
    LeafEntryInContents(pages, chain, id, p.entries[i]);
    LeafUpdateKeepsInvariant(pages, level, chain, leafCapacity, indexCapacity, nextFree, id, q, root);
    MultisetCancel(multiset(ChainEntries(pages, chain)), multiset(q.entries),
                   multiset(ChainEntries(pages[id := q], chain)), multiset{p.entries[i]});
  }

  /** An entry of a leaf on the chain is an entry of the tree. */
  lemma LeafEntryInContents(pages: Pages, chain: seq<PageId>, id: PageId, x: KeyDataEntry)
    requires ChainOk(pages, chain) && id in pages && pages[id].nodeType == LeafNode
    requires x in pages[id].entries
    ensures x in ChainEntries(pages, chain)
  {
    var i :| 0 <= i < |chain| && chain[i] == id;
    ChainEntriesAround(pages, chain, i);
  }

  /**
   * The store and chain after leaf `pid` is split into itself and the new
   * leaf `n`, with `entry` placed: the halves stand in the leaf's place and
   * are linked to each other, they hold the leaf's entries and `entry` in
   * order, and `copyUp` names the new leaf by its first key.
   */
  ghost predicate LeafSplitShape(pages: Pages, chain: seq<PageId>, pages': Pages, chain': seq<PageId>,
                                 pid: PageId, n: PageId, entry: KeyDataEntry, copyUp: KeyDataEntry)
  {
    && pid in pages && n !in pages && pid in pages' && n in pages'
    && pages' == Spliced(pages, pid, n, pages'[pid], pages'[n])
    && (exists i :: 0 <= i < |chain| && chain[i] == pid && chain' == SplicedChain(chain, i, n))
    && pages'[pid].prevPage == pages[pid].prevPage && pages'[pid].nextPage == n
    && pages'[n].prevPage == pid && pages'[n].nextPage == pages[pid].nextPage
    && 0 < |pages'[pid].entries| && 0 < |pages'[n].entries|
    && Sorted(pages'[pid].entries + pages'[n].entries)
    && multiset(pages'[pid].entries) + multiset(pages'[n].entries) == multiset(pages[pid].entries) + multiset{entry}
    && copyUp == KeyDataEntry(pages'[n].entries[0].key, IndexData(n))
  }

  /**
   * The tree after the split of leaf `pid` into itself and the new leaf
   * `n`: well formed, with the shape above, the entries grown by exactly
   * `entry`, no index page changed, the separator naming a leaf, and the
   * root `root` keeping its leftmost leaf.
   */
  ghost predicate LeafSplitDone(pages: Pages, level: Levels, chain: seq<PageId>,
                                pages': Pages, level': Levels, chain': seq<PageId>,
                                leafCapacity: nat, indexCapacity: nat, n: nat, root: PageId,
                                pid: PageId, entry: KeyDataEntry, copyUp: KeyDataEntry)
  {
    && TreeInv(pages', level', chain', leafCapacity, indexCapacity, n + 1)
    && pid in pages' && pid in level' && level'[pid] == 0 && root in pages'
    && LeftmostFrom(pages', level', root) == chain'[0]
    && (root != pid ==> RootOk(pages', level', chain', root))
    && Separator(pages', level', copyUp, 0)
    && Grows(pages, level, pages', level') && SameAbove(pages, level, pages', 0)
    && multiset(ChainEntries(pages', chain')) == multiset(ChainEntries(pages, chain)) + multiset{entry}
    && LeafSplitShape(pages, chain, pages', chain', pid, n, entry, copyUp)
  }

  /**
   * A full leaf replaced by two halves, the upper one a new page linked in
   * right after it: the tree stays well formed, the entries gain exactly
   * `entry`, no index page changes, the separator names the new leaf, and
   * the root keeps its leftmost leaf.
   */
  lemma LeafSplitStep(pages: Pages, level: Levels, chain: seq<PageId>,
                      leafCapacity: nat, indexCapacity: nat, nextFree: nat,
                      pid: PageId, left: SortedPage, right: SortedPage, root: PageId,
                      entry: KeyDataEntry, copyUp: KeyDataEntry)
      returns (i: nat, chain': seq<PageId>)
    requires TreeInv(pages, level, chain, leafCapacity, indexCapacity, nextFree)
    requires RootOk(pages, level, chain, root)
    requires pid in pages && pages[pid].nodeType == LeafNode
    requires IsLeafPage(left) && IsLeafPage(right) && Sorted(left.entries) && Sorted(right.entries)
    requires |left.entries| <= leafCapacity && |right.entries| <= leafCapacity
    requires left.prevPage == pages[pid].prevPage && left.nextPage == nextFree
    requires right.prevPage == pid && right.nextPage == pages[pid].nextPage
    requires multiset(left.entries) + multiset(right.entries) == multiset(pages[pid].entries) + multiset{entry}
    requires 0 < |left.entries| && 0 < |right.entries| && Sorted(left.entries + right.entries)
    requires copyUp == KeyDataEntry(right.entries[0].key, IndexData(nextFree))
    ensures i < |chain| && chain[i] == pid && chain' == SplicedChain(chain, i, nextFree)
    ensures LeafSplitDone(pages, level, chain, Spliced(pages, pid, nextFree, left, right), level[nextFree := 0], chain',
                          leafCapacity, indexCapacity, nextFree, root, pid, entry, copyUp)
  {
    assert PageOk(left, leafCapacity, indexCapacity) && PageOk(right, leafCapacity, indexCapacity);
    i := LeafSplitKeepsInvariant(pages, level, chain, leafCapacity, indexCapacity, nextFree,
                                 pid, left, right, root);
    var pages' := Spliced(pages, pid, nextFree, left, right);
    var level' := level[nextFree := 0];
    chain' := SplicedChain(chain, i, nextFree);
    assert nextFree !in pages;
    NextLeaf(pages, chain, pid);
    forall q | q in pages && q in level && level[q] > 0 ensures q in pages' && pages'[q] == pages[q] {
      assert pages[q].nodeType == IndexNode;
      SplicedAt(pages, pid, nextFree, left, right, q);
    }
    var m, m' := multiset(ChainEntries(pages, chain)), multiset(ChainEntries(pages', chain'));
    var l := multiset(pages[pid].entries);
    assert m' + l == m + (l + multiset{entry});
    MultisetCancel(m', l, m, multiset{entry});
    SplicedAt(pages, pid, nextFree, left, right, nextFree);
    assert pages'[pid] == left && pages'[nextFree] == right;
    assert LeafSplitShape(pages, chain, pages', chain', pid, nextFree, entry, copyUp);
  }

  /**
   * One index split seen from the tree: the split page keeps its identifier
   * and left link, the upper half becomes a new page on the same level, and
   * the pushed-up entry names that new page. Pages above are untouched and
   * the leaf chain's contents do not change.
   */
  lemma IndexSplitStep(pages: Pages, level: Levels, chain: seq<PageId>,
                       leafCapacity: nat, indexCapacity: nat, nextFree: nat,
                       pid: PageId, e: KeyDataEntry, left: SortedPage, right: SortedPage,
                       root: PageId, pushUp: KeyDataEntry)
    requires TreeInv(pages, level, chain, leafCapacity, indexCapacity, nextFree)
    requires RootOk(pages, level, chain, root)
    requires pid in pages && pages[pid].nodeType == IndexNode
    requires Separator(pages, level, e, level[pid] - 1)
    requires IsIndexPage(left) && IsIndexPage(right) && Sorted(left.entries) && Sorted(right.entries)
    requires 0 < |left.entries| <= indexCapacity && 0 < |right.entries| <= indexCapacity
    requires left.prevPage == pages[pid].prevPage
    requires pushUp.data == IndexData(nextFree)
    requires multiset(left.entries) + multiset(right.entries) + multiset{KeyDataEntry(pushUp.key, IndexData(right.prevPage))}
          == multiset(pages[pid].entries) + multiset{e}
    ensures var pages' := pages[pid := left][nextFree := right];
            var level' := level[nextFree := level[pid]];
            && TreeInv(pages', level', chain, leafCapacity, indexCapacity, nextFree + 1)
            && Grows(pages, level, pages', level')
            && SameAbove(pages, level, pages', level[pid])
            && ChainEntries(pages', chain) == ChainEntries(pages, chain)
            && Separator(pages', level', pushUp, level[pid])
            && RootOk(pages', level', chain, root)
  {
    assert PageOk(pages[pid], leafCapacity, indexCapacity);
    assert LinksBelow(pages, level, pages[pid], level[pid]);
    HalvesLinkDown(pages, level, pages[pid], e, left, right, pushUp.key, level[pid]);
    assert PageOk(left, leafCapacity, indexCapacity) && PageOk(right, leafCapacity, indexCapacity);
    IndexSplitKeepsInvariant(pages, level, chain, leafCapacity, indexCapacity, nextFree,
                             pid, left, right, root);
    assert nextFree !in pages;
  }

  /**
   * insertRecord on a well-formed leaf: it fails exactly on a full leaf;
   * otherwise the leaf, with its sibling fields, stays well formed and holds
   * the entry besides its old ones.
   */
  method InsertIntoLeaf(leafPage: SortedPage, entry: KeyDataEntry, leafCapacity: nat, indexCapacity: nat)
      returns (q: SortedPage, ok: bool)
    requires leafPage.nodeType == LeafNode && PageOk(leafPage, leafCapacity, indexCapacity) && entry.data.LeafData?
    ensures ok <==> |leafPage.entries| < leafCapacity
    ensures ok ==> && q.nodeType == LeafNode && q.prevPage == leafPage.prevPage && q.nextPage == leafPage.nextPage
                   && PageOk(q, leafCapacity, indexCapacity)
                   && multiset(q.entries) == multiset(leafPage.entries) + multiset{entry}
  {
    var inserted := InsertRecord(leafPage, entry.key, entry.data.rid, leafCapacity);
    q, ok := inserted.0, inserted.1.Some?;
    assert KeyDataEntry(entry.key, LeafData(entry.data.rid)) == entry;
  }

  /**
   * insertKey on a well-formed index page at height `h`: it fails exactly on
   * a full page; otherwise the page, with its left link, stays well formed,
   * still links one level down and holds the entry besides its old ones.
   */
  method InsertIntoIndexPage(ghost pages: Pages, ghost level: Levels, parent: SortedPage, e: KeyDataEntry, ghost h: int,
                             leafCapacity: nat, indexCapacity: nat)
      returns (q: SortedPage, ok: bool)
    requires parent.nodeType == IndexNode && PageOk(parent, leafCapacity, indexCapacity)
    requires LinksBelow(pages, level, parent, h) && Separator(pages, level, e, h - 1)
    ensures ok <==> |parent.entries| < indexCapacity
    ensures ok ==> && q.nodeType == IndexNode && q.prevPage == parent.prevPage && q.nextPage == parent.nextPage
                   && PageOk(q, leafCapacity, indexCapacity) && LinksBelow(pages, level, q, h)
                   && multiset(q.entries) == multiset(parent.entries) + multiset{e}
  {
    var inserted := InsertKey(parent, e.key, e.data.pageNo, indexCapacity);
    q, ok := inserted.0, inserted.1.Some?;
    assert KeyDataEntry(e.key, IndexData(e.data.pageNo)) == e;
  }

  /**
   * The page that becomes the root when the old root splits: a new index
   * page holding only the separator, with the old root as its left link.
   */
  method NewRootPage(separator: KeyDataEntry, oldRoot: PageId, capacity: nat) returns (rootPage: SortedPage)
    requires separator.data.IndexData? && 0 < capacity
    ensures rootPage == SortedPage(IndexNode, [separator], oldRoot, INVALID_PAGE)
  {
    rootPage := EmptyPage(IndexNode);
    rootPage := InsertKey(rootPage, separator.key, separator.data.pageNo, capacity).0;
    rootPage := SetLeftLink(rootPage, oldRoot);
    assert rootPage.entries == [separator];
  }

  /**
   * After an index split and placement, both halves link one level down:
   * every entry and left link they hold came from the split page or is the
   * separator being placed.
   */
  lemma HalvesLinkDown(pages: Pages, level: Levels, parent: SortedPage, e: KeyDataEntry,
                       lower: SortedPage, upper: SortedPage, pushKey: Key, h: int)
    requires LinksBelow(pages, level, parent, h)
    requires e.data.IndexData? && e.data.pageNo in pages && e.data.pageNo in level && level[e.data.pageNo] == h - 1
    requires lower.prevPage == parent.prevPage
    requires multiset(lower.entries) + multiset(upper.entries) + multiset{KeyDataEntry(pushKey, IndexData(upper.prevPage))}
          == multiset(parent.entries) + multiset{e}
    ensures LinksBelow(pages, level, lower, h) && LinksBelow(pages, level, upper, h)
  {
    var whole := multiset(parent.entries) + multiset{e};
    forall x | x in lower.entries
      ensures x.data.IndexData? && x.data.pageNo in pages && x.data.pageNo in level && level[x.data.pageNo] == h - 1
    {
      assert x in whole;
    }
    forall x | x in upper.entries
      ensures x.data.IndexData? && x.data.pageNo in pages && x.data.pageNo in level && level[x.data.pageNo] == h - 1
    {
      assert x in whole;
    }
    assert KeyDataEntry(pushKey, IndexData(upper.prevPage)) in whole;
  }

  /**
   * The loop of Delete over the leaf it reached: walk the entries with
   * getFirst/getNext and stop at the first whose key equals `key`.
   */
  method FindEntry(page: SortedPage, key: Key) returns (currentEntry: Option<KeyDataEntry>)
    requires IsLeafPage(page)
    ensures FirstKeyIndex(page.entries, key).None? <==> currentEntry.None?
    ensures currentEntry.Some? ==> currentEntry.value == page.entries[FirstKeyIndex(page.entries, key).value]
  {
    var first := BTLeafPage.GetFirst(page, 0);
    currentEntry := first.0;
    var currentRecord := first.1;
    var i := 0;
    while i < |page.entries|
      invariant 0 <= i <= |page.entries|
      invariant currentEntry.Some? ==> currentRecord == i && i < |page.entries| && currentEntry.value == page.entries[i]
      invariant currentEntry.None? ==> i == |page.entries| || page.entries == []
      invariant forall j :: 0 <= j < i ==> page.entries[j].key != key
      decreases |page.entries| - i
    {
      if currentEntry.Some? && currentEntry.value.key == key {
        return;
      } else if currentEntry.Some? {
        var next := BTLeafPage.GetNext(page, currentRecord);
        currentEntry, currentRecord := next.0, next.1;
      } else {
        return;
      }
      i := i + 1;
    }
    currentEntry := None;
  }

  /**
   * On the ordered tree, the child getPageNoByKey picks for a key of an
   * index page's span sits in one of the page's slots, answers for the key
   * and has the index page as its parent.
   */
  lemma OrderedChild(pages: Pages, level: Levels, chain: seq<PageId>,
                     leafCapacity: nat, indexCapacity: nat, nextFree: nat,
                     span: Spans, up: Parents, id: PageId, key: Key) returns (s: nat)
    requires TreeInv(pages, level, chain, leafCapacity, indexCapacity, nextFree) && SpansOk(pages, span, up, chain)
    requires id in pages && pages[id].nodeType == IndexNode && id in span && InSpan(key, span[id])
    ensures IsIndexPage(pages[id]) && |pages[id].entries| > 0
    ensures s <= |pages[id].entries| && Child(pages[id], s) == GetPageNoByKey(pages[id], key)
    ensures GetPageNoByKey(pages[id], key) in span && InSpan(key, span[GetPageNoByKey(pages[id], key)])
    ensures GetPageNoByKey(pages[id], key) in up && up[GetPageNoByKey(pages[id], key)] == id
  {
    assert PageOk(pages[id], leafCapacity, indexCapacity);
    s := ChildSlot(pages[id], span[id], key);
    assert PageSpanOk(pages, span, up, id);
  }

  /** OrderedChild for an insertion step, stated under the premise that the tree is ordered and `id` answers for `key`. */
  lemma OrderedChildIf(pages: Pages, level: Levels, chain: seq<PageId>,
                       leafCapacity: nat, indexCapacity: nat, nextFree: nat,
                       span: Spans, up: Parents, root: PageId, id: PageId, key: Key) returns (s: nat)
    requires TreeInv(pages, level, chain, leafCapacity, indexCapacity, nextFree)
    requires id in pages && pages[id].nodeType == IndexNode
    ensures IsIndexPage(pages[id]) && |pages[id].entries| > 0
    ensures Ordered(pages, span, up, chain, root) && id in span && InSpan(key, span[id]) ==>
      var child := GetPageNoByKey(pages[id], key);
      && s <= |pages[id].entries| && Child(pages[id], s) == child
      && child in span && InSpan(key, span[child]) && child in up && up[child] == id && child != root
  {
    assert PageOk(pages[id], leafCapacity, indexCapacity);
    s := 0;
    if Ordered(pages, span, up, chain, root) && id in span && InSpan(key, span[id]) {
      s := OrderedChild(pages, level, chain, leafCapacity, indexCapacity, nextFree, span, up, id, key);
    }
  }

  /** On the ordered tree, the search from a page that answers for `key` reaches a leaf that answers for it. */
  lemma {:induction false} LeafForInSpan(pages: Pages, level: Levels, chain: seq<PageId>,
                                         leafCapacity: nat, indexCapacity: nat, nextFree: nat,
                                         span: Spans, up: Parents, id: PageId, key: Key)
    requires TreeInv(pages, level, chain, leafCapacity, indexCapacity, nextFree) && SpansOk(pages, span, up, chain)
    requires id in pages && id in span && InSpan(key, span[id])
    ensures LeafFor(pages, level, id, key) in span && InSpan(key, span[LeafFor(pages, level, id, key)])
    decreases level[id]
  {
    if pages[id].nodeType == IndexNode {
      var child := ChildLink(pages, level, chain, leafCapacity, indexCapacity, nextFree, id, key);
      var s := OrderedChild(pages, level, chain, leafCapacity, indexCapacity, nextFree, span, up, id, key);
      LeafForInSpan(pages, level, chain, leafCapacity, indexCapacity, nextFree, span, up, child, key);
    }
  }

  /**
   * On the ordered tree, the leaf the search from the root reaches holds
   * every entry of the tree with the searched key.
   */
  lemma SearchFindsAll(pages: Pages, level: Levels, chain: seq<PageId>,
                       leafCapacity: nat, indexCapacity: nat, nextFree: nat,
                       span: Spans, up: Parents, root: PageId, key: Key)
    requires TreeInv(pages, level, chain, leafCapacity, indexCapacity, nextFree)
    requires Ordered(pages, span, up, chain, root)
    ensures LeafFor(pages, level, root, key) in pages
    ensures LeafFor(pages, level, root, key) in span && InSpan(key, span[LeafFor(pages, level, root, key)])
    ensures forall x :: x in ChainEntries(pages, chain) && x.key == key ==> x in pages[LeafFor(pages, level, root, key)].entries
  {
    var leafId := LeafFor(pages, level, root, key);
    LeafForIsLeaf(pages, level, chain, leafCapacity, indexCapacity, nextFree, root, key);
    LeafForInSpan(pages, level, chain, leafCapacity, indexCapacity, nextFree, span, up, root, key);
    var j :| 0 <= j < |chain| && chain[j] == leafId;
    KeyOnlyInItsLeaf(pages, span, up, chain, j, key);
  }

  /**
   * On the ordered tree, the leaf the search for `key` reaches holds an
   * entry with that key exactly when the tree holds one.
   */
  lemma SearchDecidesKey(pages: Pages, level: Levels, chain: seq<PageId>,
                         leafCapacity: nat, indexCapacity: nat, nextFree: nat,
                         span: Spans, up: Parents, root: PageId, key: Key)
    requires TreeInv(pages, level, chain, leafCapacity, indexCapacity, nextFree) && root in pages
    ensures LeafFor(pages, level, root, key) in pages
    ensures Ordered(pages, span, up, chain, root) ==>
      (FirstKeyIndex(pages[LeafFor(pages, level, root, key)].entries, key).Some?
       <==> exists x :: x in ChainEntries(pages, chain) && x.key == key)
  {
    LeafForIsLeaf(pages, level, chain, leafCapacity, indexCapacity, nextFree, root, key);
    var leafId := LeafFor(pages, level, root, key);
    var f := FirstKeyIndex(pages[leafId].entries, key);
    if f.Some? {
      LeafEntryInContents(pages, chain, leafId, pages[leafId].entries[f.value]);
    }
    if Ordered(pages, span, up, chain, root) {
      SearchFindsAll(pages, level, chain, leafCapacity, indexCapacity, nextFree, span, up, root, key);
      forall x | x in ChainEntries(pages, chain) && x.key == key ensures f.Some? {
        var j :| 0 <= j < |pages[leafId].entries| && pages[leafId].entries[j] == x;
      }
    }
  }

  /**
   * On the ordered tree, the search for the key in slot `rec` of leaf
   * `chain[j]` reaches that leaf, and that slot is the first one there
   * with the key: delete by key removes exactly that slot.
   */
  lemma SearchFindsSlot(pages: Pages, level: Levels, chain: seq<PageId>,
                        leafCapacity: nat, indexCapacity: nat, nextFree: nat,
                        span: Spans, up: Parents, root: PageId, j: nat, rec: nat)
    requires TreeInv(pages, level, chain, leafCapacity, indexCapacity, nextFree)
    requires Ordered(pages, span, up, chain, root)
    requires j < |chain| && chain[j] in pages && rec < |pages[chain[j]].entries|
    ensures var k := pages[chain[j]].entries[rec].key;
      && LeafFor(pages, level, root, k) == chain[j]
      && FirstKeyIndex(pages[chain[j]].entries, k) == Some(rec)
  {
    var e := pages[chain[j]].entries[rec];
    LeafEntryInContents(pages, chain, chain[j], e);
    SearchFindsAll(pages, level, chain, leafCapacity, indexCapacity, nextFree, span, up, root, e.key);
    LeafForIsLeaf(pages, level, chain, leafCapacity, indexCapacity, nextFree, root, e.key);
    forall a: nat, b: nat | a < b < |chain|
      ensures forall x :: x in pages[chain[a]].entries ==> x !in pages[chain[b]].entries
    {
      LeavesDisjoint(pages, span, up, chain, a, b);
    }
    LeafOrdered(pages, span, up, chain, chain[j]);
  }

  /**
   * Removing one entry from a leaf of the ordered tree keeps it ordered,
   * and no entry with the removed key is left: the ordered tree holds each
   * key once.
   */
  lemma LeafRemoveOrderedIf(pages: Pages, span: Spans, up: Parents, chain: seq<PageId>, root: PageId,
                            id: PageId, i: nat)
    requires ChainOk(pages, chain)
    requires id in pages && pages[id].nodeType == LeafNode && i < |pages[id].entries|
    requires var q := pages[id].(entries := RemoveAt(pages[id].entries, i));
      multiset(ChainEntries(pages, chain)) == multiset(ChainEntries(pages[id := q], chain)) + multiset{pages[id].entries[i]}
    ensures Ordered(pages, span, up, chain, root) ==>
      var q := pages[id].(entries := RemoveAt(pages[id].entries, i));
      && Ordered(pages[id := q], span, up, chain, root)
      && forall x :: x in ChainEntries(pages[id := q], chain) ==> x.key != pages[id].entries[i].key
  {
    if Ordered(pages, span, up, chain, root) {
      var q := pages[id].(entries := RemoveAt(pages[id].entries, i));
      LeafRemoveKeepsOrder(pages, span, up, chain, root, id, i);
      ContentsStrictlySorted(pages, span, up, chain);
      RemovedKeyGone(ChainEntries(pages, chain), ChainEntries(pages[id := q], chain), pages[id].entries[i]);
    }
  }

  /**
   * The order side of a leaf split, for the insert path: on the ordered
   * tree, with a new key that leaf `pid` answers for, the separator for the
   * new leaf is pending.
   */
  lemma LeafSplitPendingIf(pages: Pages, level: Levels, chain: seq<PageId>,
                           leafCapacity: nat, indexCapacity: nat, nextFree: nat,
                           span: Spans, up: Parents, root: PageId, i: nat,
                           left: SortedPage, right: SortedPage, e: KeyDataEntry)
    requires TreeInv(pages, level, chain, leafCapacity, indexCapacity, nextFree) && i < |chain|
    requires left.nodeType == LeafNode && right.nodeType == LeafNode
    requires Sorted(left.entries + right.entries) && 0 < |left.entries| && 0 < |right.entries|
    requires multiset(left.entries) + multiset(right.entries) == multiset(pages[chain[i]].entries) + multiset{e}
    ensures && Ordered(pages, span, up, chain, root) && chain[i] in span && InSpan(e.key, span[chain[i]])
            && (forall x :: x in ChainEntries(pages, chain) ==> x.key != e.key)
            ==> && Pending(Spliced(pages, chain[i], nextFree, left, right), CutSpan(span, chain[i], nextFree, right.entries[0].key),
                           Sibling(up, chain[i], nextFree), SplicedChain(chain, i, nextFree), root, chain[i],
                           KeyDataEntry(right.entries[0].key, IndexData(nextFree)))
                && UpKept(level, up, Sibling(up, chain[i], nextFree), 0)
  {
    if && Ordered(pages, span, up, chain, root) && chain[i] in span && InSpan(e.key, span[chain[i]])
       && (forall x :: x in ChainEntries(pages, chain) ==> x.key != e.key)
    {
      forall x | x in pages[chain[i]].entries ensures x.key != e.key {
        LeafEntryInContents(pages, chain, chain[i], x);
      }
      assert nextFree !in pages && INVALID_PAGE !in pages;
      LeafSplitPending(pages, span, up, chain, root, i, nextFree, left, right, e);
      SiblingKeepsUp(pages, level, up, chain[i], nextFree);
    }
  }

  /**
   * A leaf below capacity taking `entry` in place: the tree stays well
   * formed with the same root, no index page changes, the entries gain
   * exactly `entry`, and a new key the leaf answers for keeps the ordered
   * tree in order.
   */
  lemma LeafInsertStep(pages: Pages, level: Levels, chain: seq<PageId>,
                       leafCapacity: nat, indexCapacity: nat, nextFree: nat,
                       span: Spans, up: Parents, root: PageId, pid: PageId, q: SortedPage, entry: KeyDataEntry)
    requires TreeInv(pages, level, chain, leafCapacity, indexCapacity, nextFree) && RootOk(pages, level, chain, root)
    requires pid in pages && pages[pid].nodeType == LeafNode
    requires q.nodeType == LeafNode && q.prevPage == pages[pid].prevPage && q.nextPage == pages[pid].nextPage
    requires PageOk(q, leafCapacity, indexCapacity)
    requires multiset(q.entries) == multiset(pages[pid].entries) + multiset{entry}
    ensures var pages' := pages[pid := q];
            && TreeInv(pages', level, chain, leafCapacity, indexCapacity, nextFree) && RootOk(pages', level, chain, root)
            && Grows(pages, level, pages', level) && SameAbove(pages, level, pages', 0)
            && multiset(ChainEntries(pages', chain)) == multiset(ChainEntries(pages, chain)) + multiset{entry}
    ensures && Ordered(pages, span, up, chain, root) && pid in span && InSpan(entry.key, span[pid])
            && (forall x :: x in ChainEntries(pages, chain) ==> x.key != entry.key)
            ==> Ordered(pages[pid := q], span, up, chain, root)
  {
    LeafUpdateKeepsInvariant(pages, level, chain, leafCapacity, indexCapacity, nextFree, pid, q, root);
    MultisetCancel(multiset(ChainEntries(pages[pid := q], chain)), multiset(pages[pid].entries),
                   multiset(ChainEntries(pages, chain)), multiset{entry});
    LeafInsertOrderedIf(pages, chain, span, up, root, pid, q, entry);
  }

  /** The order side of an insertion into a leaf below capacity: a new key the leaf answers for keeps the tree in order. */
  lemma LeafInsertOrderedIf(pages: Pages, chain: seq<PageId>, span: Spans, up: Parents, root: PageId,
                            pid: PageId, q: SortedPage, e: KeyDataEntry)
    requires ChainOk(pages, chain) && pid in pages && pages[pid].nodeType == LeafNode
    requires q.nodeType == LeafNode && Sorted(q.entries)
    requires multiset(q.entries) == multiset(pages[pid].entries) + multiset{e}
    ensures && Ordered(pages, span, up, chain, root) && pid in span && InSpan(e.key, span[pid])
            && (forall x :: x in ChainEntries(pages, chain) ==> x.key != e.key)
            ==> Ordered(pages[pid := q], span, up, chain, root)
  {
    if && Ordered(pages, span, up, chain, root) && pid in span && InSpan(e.key, span[pid])
       && (forall x :: x in ChainEntries(pages, chain) ==> x.key != e.key)
    {
      forall x | x in pages[pid].entries ensures x.key != e.key {
        LeafEntryInContents(pages, chain, pid, x);
      }
      LeafInsertKeepsOrder(pages, span, up, chain, root, pid, q, e);
    }
  }

  /** The order side of an insertion into an index page below capacity: the pending separator lands after the slot of `x`. */
  lemma IndexInsertOrderedIf(pages: Pages, chain: seq<PageId>, span: Spans, up: Parents, root: PageId,
                             pid: PageId, x: PageId, s0: nat, e: KeyDataEntry, q: SortedPage)
    requires pid in pages
    requires q.nodeType == pages[pid].nodeType && q.prevPage == pages[pid].prevPage && q.nextPage == pages[pid].nextPage
    requires Sorted(q.entries) && multiset(q.entries) == multiset(pages[pid].entries) + multiset{e}
    ensures && Pending(pages, span, up, chain, root, x, e) && x != root && x in up && up[x] == pid
            && s0 <= |pages[pid].entries| && Child(pages[pid], s0) == x
            ==> q == AddSlot(pages[pid], s0, e) && Ordered(pages[pid := q], span, up, chain, root)
  {
    if && Pending(pages, span, up, chain, root, x, e) && x != root && x in up && up[x] == pid
       && s0 <= |pages[pid].entries| && Child(pages[pid], s0) == x
    {
      ResolvePending(pages, span, up, chain, root, x, e, s0, q);
    }
  }

  /**
   * The order side of an index split, for the insert path: with the
   * separator `e` of child `x` pending for page `pid`, the pushed-up entry
   * is pending for the parent of `pid`, which stays the parent.
   */
  lemma IndexSplitPendingIf(pages: Pages, level: Levels, chain: seq<PageId>,
                            leafCapacity: nat, indexCapacity: nat, nextFree: nat,
                            span: Spans, up: Parents, root: PageId, pid: PageId, x: PageId, e: KeyDataEntry, s0: nat,
                            left: SortedPage, right: SortedPage, pushUp: KeyDataEntry)
    requires TreeInv(pages, level, chain, leafCapacity, indexCapacity, nextFree) && pid in pages
    requires left.nodeType == IndexNode && right.nodeType == IndexNode
    requires Sorted(left.entries) && Sorted(right.entries) && left.prevPage == pages[pid].prevPage
    requires forall y :: y in left.entries ==> y.key <= pushUp.key
    requires forall y :: y in right.entries ==> pushUp.key <= y.key
    requires pushUp.data == IndexData(nextFree)
    requires multiset(left.entries) + multiset(right.entries) + multiset{KeyDataEntry(pushUp.key, IndexData(right.prevPage))}
          == multiset(pages[pid].entries) + multiset{e}
    requires Separator(pages, level, e, level[pid] as int - 1)
    ensures && Pending(pages, span, up, chain, root, x, e) && x != root && x in up && up[x] == pid
            && s0 <= |pages[pid].entries| && Child(pages[pid], s0) == x
            ==> && pid in span
                && Pending(pages[pid := left][nextFree := right], CutSpan(span, pid, nextFree, pushUp.key),
                           Sibling(Adopt(up, right, nextFree), pid, nextFree), chain, root, pid, pushUp)
                && UpKept(level, up, Sibling(Adopt(up, right, nextFree), pid, nextFree), level[pid])
  {
    if && Pending(pages, span, up, chain, root, x, e) && x != root && x in up && up[x] == pid
       && s0 <= |pages[pid].entries| && Child(pages[pid], s0) == x
    {
      PendingParentInSpan(pages, span, up, chain, root, x, e, s0);
      assert nextFree !in pages;
      IndexSplitPending(pages, level, span, up, chain, root, x, e, s0, nextFree, left, right, pushUp);
      IndexSplitKeepsUp(pages, level, span, up, chain, root, x, e, s0, nextFree, left, right, pushUp);
    }
  }

  /** The order side of root growth: after a split of the ordered tree's root the new root orders the tree. */
  lemma GrowRootOrderedIf(pages: Pages, level: Levels, span: Spans, up: Parents, chain: seq<PageId>,
                          x: PageId, sep: KeyDataEntry, t: PageId)
    requires t !in pages
    requires forall j :: 0 <= j < |chain| ==> chain[j] in pages
    ensures Pending(pages, span, up, chain, x, x, sep) ==>
      && Ordered(pages[t := SortedPage(IndexNode, [sep], x, INVALID_PAGE)], span[t := Whole],
                 up[x := t][sep.data.pageNo := t], chain, t)
      && UpKept(level, up, up[x := t][sep.data.pageNo := t], 0)
  {
    if Pending(pages, span, up, chain, x, x, sep) {
      GrowRootOrdered(pages, span, up, chain, x, sep, t);
      GrowKeepsUp(level, up, x, sep.data.pageNo, t);
    }
  }

  /** The tree of one empty leaf, the root, is well formed, in order and holds no entry. */
  lemma EmptyTreeOk(leafCapacity: nat, indexCapacity: nat)
    requires 2 <= leafCapacity && 2 <= indexCapacity
    ensures var pages := map[0 := EmptyPage(LeafNode)];
            && TreeInv(pages, map[0 := 0], [0], leafCapacity, indexCapacity, 1)
            && RootOk(pages, map[0 := 0], [0], 0)
            && Ordered(pages, map[0 := Whole], map[], [0], 0)
            && ChainEntries(pages, [0]) == []
  {
    EmptyTreeShape(leafCapacity, indexCapacity);
    EmptyTreeOrdered();
  }

  /** The shape half of EmptyTreeOk. */
  lemma EmptyTreeShape(leafCapacity: nat, indexCapacity: nat)
    requires 2 <= leafCapacity && 2 <= indexCapacity
    ensures var pages := map[0 := EmptyPage(LeafNode)];
            && TreeInv(pages, map[0 := 0], [0], leafCapacity, indexCapacity, 1)
            && RootOk(pages, map[0 := 0], [0], 0)
            && ChainEntries(pages, [0]) == []
  {
    var pages := map[0 := EmptyPage(LeafNode)];
    assert ChainEntries(pages, [0]) == EmptyPage(LeafNode).entries + ChainEntries(pages, []);
  }

  /** The order half of EmptyTreeOk. */
  lemma EmptyTreeOrdered()
    ensures Ordered(map[0 := EmptyPage(LeafNode)], map[0 := Whole], map[], [0], 0)
  {
    assert PageSpanOk(map[0 := EmptyPage(LeafNode)], map[0 := Whole], map[], 0);
  }

  class BTreeFile {
    /** The header page; null once the file is closed. */
    var headerPage: BTreeHeaderPage?
    /** The page store. */
    var pages: Pages
    /** The id the next allocation hands out. */
    var nextFree: nat
    /** How many entries a leaf page and an index page can hold. */
    const leafCapacity: nat
    const indexCapacity: nat
    /** The height of every page above the leaves. */
    ghost var level: Levels
    /** The leaves in sibling order. */
    ghost var chain: seq<PageId>
    /** The keys every page answers for. */
    ghost var span: Spans
    /** The parent of every page but the root. */
    ghost var up: Parents

    /** Installs a new store: its pages, the next free identifier and the ghost shape of the tree. */
    method Commit(p: Pages, nf: nat, ghost l: Levels, ghost c: seq<PageId>, ghost s: Spans, ghost u: Parents)
      modifies this`pages, this`nextFree, this`level, this`chain, this`span, this`up
      ensures pages == p && nextFree == nf && level == l && chain == c && span == s && up == u
    {
      pages, nextFree, level, chain, span, up := p, nf, l, c, s, u;
    }

    ghost predicate Valid()
      reads this, headerPage
    {
      && TreeInv(pages, level, chain, leafCapacity, indexCapacity, nextFree)
      && (headerPage != null ==> RootOk(pages, level, chain, headerPage.GetRootId()))
    }

    /** The entries of the tree: those of the leaves, in chain order. */
    ghost function Contents(): seq<KeyDataEntry>
      reads this
    {
      ChainEntries(pages, chain)
    }

    /** The tree is open and in key order under the root the header names. */
    ghost predicate InOrder()
      reads this, headerPage
    {
      headerPage != null && Ordered(pages, span, up, chain, headerPage.GetRootId())
    }

    /** No entry of the tree has key `k`. */
    ghost predicate KeyNew(k: Key)
      reads this
    {
      forall x :: x in Contents() ==> x.key != k
    }

    /** An insertion of the new key `k` below page `pid` of the ordered tree, which answers for `k`. */
    ghost predicate OrderedFor(pid: PageId, k: Key)
      reads this, headerPage
    {
      InOrder() && pid in span && InSpan(k, span[pid]) && KeyNew(k)
    }

    /** Page `x` has been split and the separator `sep` for its new sibling is pending for its parent. */
    ghost predicate PendingAt(x: PageId, sep: KeyDataEntry)
      reads this, headerPage
    {
      headerPage != null && Pending(pages, span, up, chain, headerPage.GetRootId(), x, sep)
    }

    /** As PendingAt, with the parent of `x` being `pid` and `x` in its slot `s`. */
    ghost predicate PendingIn(pid: PageId, x: PageId, s: nat, sep: KeyDataEntry)
      reads this, headerPage
    {
      && PendingAt(x, sep) && x != headerPage.GetRootId() && x in up && up[x] == pid
      && pid in pages && s <= |pages[pid].entries| && Child(pages[pid], s) == x
    }

    /**
     * A new tree: a header page naming an empty leaf as the root, with the
     * given key type and maximum key length.
     */
    constructor (keytype: int, keysize: int, leafCapacity: nat, indexCapacity: nat)
      requires 2 <= leafCapacity && 2 <= indexCapacity
      ensures Valid() && InOrder() && headerPage != null && fresh(headerPage)
      ensures pages == map[0 := EmptyPage(LeafNode)] && Contents() == []
      ensures headerPage.GetRootId() == 0
      ensures headerPage.GetKeyType() == ShortCast(keytype) && headerPage.GetMaxKeyFieldLength() == keysize
    {
      EmptyTreeOk(leafCapacity, indexCapacity);
      var h := new BTreeHeaderPage();
      h.InsertAll(0, keytype, keysize);
      headerPage := h;
      pages := map[0 := EmptyPage(LeafNode)];
      nextFree := 1;
      this.leafCapacity := leafCapacity;
      this.indexCapacity := indexCapacity;
      level := map[0 := 0];
      chain := [0];
      span := map[0 := Whole];
      up := map[];
    }

    /**
     * insert(key, rid): when the tree is open and the key passes the checks,
     * the pair (key, rid) is added to the entries of the tree; otherwise no
     * page and no header field changes. Key type and maximum key length are
     * never changed. A key the ordered tree does not hold yet leaves it in
     * order.
     */
    method Insert(key: KeyClass, rid: Rid) returns (status: Status)
      requires Valid()
      modifies this, headerPage
      ensures Valid() && headerPage == old(headerPage)
      ensures old(headerPage) == null ==> status == TreeClosed
      ensures old(headerPage) != null ==>
        status == CheckKey(key, old(headerPage.GetMaxKeyFieldLength()), old(headerPage.GetKeyType()))
      ensures status != Ok ==> pages == old(pages) && nextFree == old(nextFree) && (headerPage != null ==> unchanged(headerPage))
      ensures status == Ok ==> multiset(Contents()) == multiset(old(Contents())) + multiset{KeyDataEntry(key.value, LeafData(rid))}
      ensures headerPage != null ==>
        headerPage.GetKeyType() == old(headerPage.GetKeyType()) && headerPage.GetMaxKeyFieldLength() == old(headerPage.GetMaxKeyFieldLength())
      ensures Grows(old(pages), old(level), pages, level)
      ensures old(InOrder() && KeyNew(key.value)) ==> InOrder()
    {
      if headerPage == null {
        return TreeClosed;
      }
      status := CheckKey(key, headerPage.GetMaxKeyFieldLength(), headerPage.GetKeyType());
      if status != Ok {
        return;
      }
      var rootId := headerPage.GetRootId();
      var entry := KeyDataEntry(key.value, LeafData(rid));
      var returned := SplittedInsertion(rootId, entry);
    }

    /**
     * splittedInserstion(page, entry): insert `entry` below page `pid`. The
     * entry joins the entries of the tree. A split that reaches a page other
     * than the root hands a separator for the new sibling back to the
     * caller; a split of the root grows a new root instead. Pages higher
     * than `pid` are left untouched. On the ordered tree, with a new key
     * that `pid` answers for, the tree ends in order, or, when a separator
     * comes back, in order once the parent of `pid` holds it.
     */
    method SplittedInsertion(pid: PageId, entry: KeyDataEntry) returns (returned: Option<KeyDataEntry>)
      requires Valid() && headerPage != null
      requires pid in pages && level[pid] <= level[headerPage.GetRootId()]
      requires entry.data.LeafData?
      modifies this, headerPage
      decreases level[pid]
      ensures Valid() && headerPage == old(headerPage)
      ensures headerPage.GetKeyType() == old(headerPage.GetKeyType())
      ensures headerPage.GetMaxKeyFieldLength() == old(headerPage.GetMaxKeyFieldLength())
      ensures pid != old(headerPage.GetRootId()) ==> headerPage.GetRootId() == old(headerPage.GetRootId())
      ensures Grows(old(pages), old(level), pages, level)
      ensures SameAbove(old(pages), old(level), pages, old(level[pid]))
      ensures multiset(Contents()) == multiset(old(Contents())) + multiset{entry}
      ensures returned.Some? ==> Separator(pages, level, returned.value, old(level[pid])) && pid != old(headerPage.GetRootId())
      ensures old(OrderedFor(pid, entry.key)) ==>
        && (returned.None? ==> InOrder())
        && (returned.Some? ==> PendingAt(pid, returned.value))
        && UpKept(old(level), old(up), up, old(level[pid]))
    {
      var currentPage := pages[pid];
      if currentPage.nodeType == IndexNode {
        var child := ChildLink(pages, level, chain, leafCapacity, indexCapacity, nextFree, pid, entry.key);
        var childPageId := GetPageNoByKey(currentPage, entry.key);
        ghost var s0 := OrderedChildIf(pages, level, chain, leafCapacity, indexCapacity, nextFree,
                                       span, up, headerPage.GetRootId(), pid, entry.key);
        returned := SplittedInsertion(childPageId, entry);
        if returned.Some? {
          assert pages[pid] == currentPage;
          ghost var pages1, level1, up1 := pages, level, up;
          returned := IndexInsertion(pid, returned.value, childPageId, s0);
          UpKeptTrans(old(pages), old(level), old(up), pages1, level1, up1, up,
                      old(level[childPageId]), level1[pid], old(level[pid]));
        }
      } else {
        returned := LeafInsertion(pid, entry);
      }
    }

    /**
     * The leaf branch of splittedInserstion: insertRecord into the leaf, and
     * on a full leaf split it, place the entry and copy the separator up.
     * Below capacity only leaf `pid` changes, gaining the entry.
     */
    method LeafInsertion(pid: PageId, entry: KeyDataEntry) returns (copyUp: Option<KeyDataEntry>)
      requires Valid() && headerPage != null
      requires pid in pages && pages[pid].nodeType == LeafNode
      requires entry.data.LeafData?
      modifies this, headerPage
      ensures Valid() && headerPage == old(headerPage)
      ensures headerPage.GetKeyType() == old(headerPage.GetKeyType())
      ensures headerPage.GetMaxKeyFieldLength() == old(headerPage.GetMaxKeyFieldLength())
      ensures pid != old(headerPage.GetRootId()) ==> headerPage.GetRootId() == old(headerPage.GetRootId())
      ensures Grows(old(pages), old(level), pages, level)
      ensures SameAbove(old(pages), old(level), pages, 0)
      ensures multiset(Contents()) == multiset(old(Contents())) + multiset{entry}
      ensures copyUp.Some? ==> Separator(pages, level, copyUp.value, 0) && pid != old(headerPage.GetRootId())
      ensures |old(pages[pid].entries)| < leafCapacity ==>
        && copyUp.None? && pid in pages && pages == old(pages)[pid := pages[pid]]
        && multiset(pages[pid].entries) == multiset(old(pages[pid].entries)) + multiset{entry}
        && nextFree == old(nextFree) && chain == old(chain) && headerPage.GetRootId() == old(headerPage.GetRootId())
      ensures old(OrderedFor(pid, entry.key)) ==>
        && (copyUp.None? ==> InOrder())
        && (copyUp.Some? ==> PendingAt(pid, copyUp.value))
        && UpKept(old(level), old(up), up, old(level[pid]))
    {
      var leafPage := pages[pid];
      assert PageOk(leafPage, leafCapacity, indexCapacity);
      var q, ok := InsertIntoLeaf(leafPage, entry, leafCapacity, indexCapacity);
      if ok {
        LeafInsertStep(pages, level, chain, leafCapacity, indexCapacity, nextFree,
                       span, up, headerPage.GetRootId(), pid, q, entry);
        pages := pages[pid := q];
        return None;
      }
      copyUp := LeafSplitInsertion(pid, entry);
    }

    /**
     * A full leaf: split it (the new leaf takes the upper half and is linked
     * in right after it), place the entry by findLocation, and copy up the
     * first key of the new leaf with the new leaf's id. A split root is
     * replaced by a new index root holding that separator, and nothing is
     * copied up.
     */
    method LeafSplitInsertion(pid: PageId, entry: KeyDataEntry) returns (copyUp: Option<KeyDataEntry>)
      requires Valid() && headerPage != null
      requires pid in pages && pages[pid].nodeType == LeafNode && |pages[pid].entries| >= leafCapacity
      requires entry.data.LeafData?
      modifies this, headerPage
      ensures Valid() && headerPage == old(headerPage)
      ensures headerPage.GetKeyType() == old(headerPage.GetKeyType())
      ensures headerPage.GetMaxKeyFieldLength() == old(headerPage.GetMaxKeyFieldLength())
      ensures pid != old(headerPage.GetRootId()) ==> headerPage.GetRootId() == old(headerPage.GetRootId())
      ensures Grows(old(pages), old(level), pages, level)
      ensures SameAbove(old(pages), old(level), pages, 0)
      ensures multiset(Contents()) == multiset(old(Contents())) + multiset{entry}
      ensures copyUp.Some? ==> Separator(pages, level, copyUp.value, 0) && pid != old(headerPage.GetRootId())
      ensures copyUp.Some? <==> pid != old(headerPage.GetRootId())
      ensures pid in pages && old(nextFree) in pages && pages[pid].nextPage == old(nextFree)
      ensures 0 < |pages[pid].entries| && 0 < |pages[old(nextFree)].entries|
      ensures multiset(pages[pid].entries) + multiset(pages[old(nextFree)].entries) == multiset(old(pages[pid].entries)) + multiset{entry}
      ensures var sep := KeyDataEntry(pages[old(nextFree)].entries[0].key, IndexData(old(nextFree)));
        && (copyUp.Some? ==> copyUp.value == sep)
        && (copyUp.None? ==> headerPage.GetRootId() == old(nextFree) + 1
                             && headerPage.GetRootId() in pages
                             && pages[headerPage.GetRootId()] == SortedPage(IndexNode, [sep], pid, INVALID_PAGE))
      ensures old(OrderedFor(pid, entry.key)) ==>
        && (copyUp.None? ==> InOrder())
        && (copyUp.Some? ==> PendingAt(pid, copyUp.value))
        && UpKept(old(level), old(up), up, old(level[pid]))
    {
      var rootId := headerPage.GetRootId();
      var copyUpEntry := SplitLeafPage(pid, entry);
      if pid == rootId {
        ghost var pages1, level1, up1 := pages, level, up;
        GrowRoot(pid, copyUpEntry);
        GrowsTrans(old(pages), old(level), pages1, level1, pages, level);
        UpKeptTrans(old(pages), old(level), old(up), pages1, level1, up1, up, 0, 0, 0);
        copyUp := None;
      } else {
        copyUp := Some(copyUpEntry);
      }
    }

    /**
     * The split of a full leaf: the upper half moves to a new leaf linked in
     * right after it, the entry is placed on its side by findLocation, and
     * the separator names the new leaf by the first key it holds. On the
     * ordered tree with a new key that the leaf answers for, the lower half
     * keeps the keys below the separator and the separator is pending for
     * the leaf's parent.
     */
    method SplitLeafPage(pid: PageId, entry: KeyDataEntry) returns (copyUpEntry: KeyDataEntry)
      requires Valid() && headerPage != null
      requires pid in pages && pages[pid].nodeType == LeafNode && |pages[pid].entries| >= leafCapacity
      requires entry.data.LeafData?
      modifies this
      ensures headerPage == old(headerPage) && nextFree == old(nextFree) + 1
      ensures LeafSplitDone(old(pages), old(level), old(chain), pages, level, chain,
                            leafCapacity, indexCapacity, old(nextFree), headerPage.GetRootId(), pid, entry, copyUpEntry)
      ensures span == if pid in old(span) then CutSpan(old(span), pid, old(nextFree), copyUpEntry.key) else old(span)
      ensures up == Sibling(old(up), pid, old(nextFree))
      ensures old(OrderedFor(pid, entry.key)) ==> PendingAt(pid, copyUpEntry) && UpKept(old(level), old(up), up, 0)
    {
      var leafPage := pages[pid];
      assert PageOk(leafPage, leafCapacity, indexCapacity);
      var newId := nextFree;
      var left, right;
      left, right, copyUpEntry := SplitLeafAndPlace(leafPage, pid, newId, entry, leafCapacity);
      ghost var i, chain' := LeafSplitStep(pages, level, chain, leafCapacity, indexCapacity, nextFree,
                                           pid, left, right, headerPage.GetRootId(), entry, copyUpEntry);
      LeafSplitPendingIf(pages, level, chain, leafCapacity, indexCapacity, nextFree,
                         span, up, headerPage.GetRootId(), i, left, right, entry);
      ghost var span' := if pid in span then CutSpan(span, pid, newId, copyUpEntry.key) else span;
      Commit(Spliced(pages, pid, newId, left, right), nextFree + 1, level[newId := 0], chain', span', Sibling(up, pid, newId));
    }

    /**
     * The index branch of splittedInserstion once the child `x` handed a
     * separator up: insertKey into this page, and on a full page split it,
     * place the separator by the push-up rule and pass the pushed-up entry
     * on. A split root is replaced by a new index root. Below capacity only
     * page `pid` changes: on the ordered tree the separator lands right
     * after the slot of `x`, and the tree is in order again.
     */
    method IndexInsertion(pid: PageId, e: KeyDataEntry, ghost x: PageId, ghost s0: nat) returns (returned: Option<KeyDataEntry>)
      requires Valid() && headerPage != null
      requires pid in pages && pages[pid].nodeType == IndexNode
      requires Separator(pages, level, e, level[pid] - 1)
      modifies this, headerPage
      ensures Valid() && headerPage == old(headerPage)
      ensures headerPage.GetKeyType() == old(headerPage.GetKeyType())
      ensures headerPage.GetMaxKeyFieldLength() == old(headerPage.GetMaxKeyFieldLength())
      ensures pid != old(headerPage.GetRootId()) ==> headerPage.GetRootId() == old(headerPage.GetRootId())
      ensures Grows(old(pages), old(level), pages, level)
      ensures SameAbove(old(pages), old(level), pages, old(level[pid]))
      ensures Contents() == old(Contents())
      ensures returned.Some? ==> Separator(pages, level, returned.value, old(level[pid])) && pid != old(headerPage.GetRootId())
      ensures |old(pages[pid].entries)| < indexCapacity ==>
        && returned.None? && pid in pages && pages == old(pages)[pid := pages[pid]]
        && multiset(pages[pid].entries) == multiset(old(pages[pid].entries)) + multiset{e}
        && nextFree == old(nextFree) && headerPage.GetRootId() == old(headerPage.GetRootId())
      ensures old(PendingIn(pid, x, s0, e)) && |old(pages[pid].entries)| < indexCapacity ==>
        pages[pid] == AddSlot(old(pages[pid]), s0, e)
      ensures old(PendingIn(pid, x, s0, e)) ==>
        && (returned.None? ==> InOrder())
        && (returned.Some? ==> PendingAt(pid, returned.value))
        && UpKept(old(level), old(up), up, old(level[pid]))
    {
      var parentPage := pages[pid];
      assert PageOk(parentPage, leafCapacity, indexCapacity);
      assert LinksBelow(pages, level, parentPage, level[pid]);
      var q, ok := InsertIntoIndexPage(pages, level, parentPage, e, level[pid], leafCapacity, indexCapacity);
      if ok {
        IndexUpdateKeepsInvariant(pages, level, chain, leafCapacity, indexCapacity, nextFree,
                                  pid, q, headerPage.GetRootId());
        IndexInsertOrderedIf(pages, chain, span, up, headerPage.GetRootId(), pid, x, s0, e, q);
        pages := pages[pid := q];
        return None;
      }
      returned := IndexSplitInsertion(pid, e, x, s0);
    }

    /**
     * A full index page: split it, place the separator by the push-up rule
     * and pass the pushed-up entry, now naming the new page, on to the
     * parent; a split root is replaced by a new index root holding the
     * pushed-up entry.
     */
    method IndexSplitInsertion(pid: PageId, e: KeyDataEntry, ghost x: PageId, ghost s0: nat) returns (returned: Option<KeyDataEntry>)
      requires Valid() && headerPage != null
      requires pid in pages && pages[pid].nodeType == IndexNode && |pages[pid].entries| >= indexCapacity
      requires Separator(pages, level, e, level[pid] - 1)
      modifies this, headerPage
      ensures Valid() && headerPage == old(headerPage)
      ensures headerPage.GetKeyType() == old(headerPage.GetKeyType())
      ensures headerPage.GetMaxKeyFieldLength() == old(headerPage.GetMaxKeyFieldLength())
      ensures pid != old(headerPage.GetRootId()) ==> headerPage.GetRootId() == old(headerPage.GetRootId())
      ensures Grows(old(pages), old(level), pages, level)
      ensures SameAbove(old(pages), old(level), pages, old(level[pid]))
      ensures Contents() == old(Contents())
      ensures returned.Some? ==> Separator(pages, level, returned.value, old(level[pid])) && pid != old(headerPage.GetRootId())
      ensures returned.Some? <==> pid != old(headerPage.GetRootId())
      ensures pid in pages && old(nextFree) in pages && pages[pid].prevPage == old(pages[pid].prevPage)
      ensures var right := pages[old(nextFree)];
        exists k: Key ::
          && (forall y :: y in pages[pid].entries ==> y.key <= k)
          && (forall y :: y in right.entries ==> k <= y.key)
          && multiset(pages[pid].entries) + multiset(right.entries) + multiset{KeyDataEntry(k, IndexData(right.prevPage))}
             == multiset(old(pages[pid].entries)) + multiset{e}
          && (returned.Some? ==> returned.value == KeyDataEntry(k, IndexData(old(nextFree))))
          && (returned.None? ==> headerPage.GetRootId() == old(nextFree) + 1
                                 && headerPage.GetRootId() in pages
                                 && pages[headerPage.GetRootId()]
                                    == SortedPage(IndexNode, [KeyDataEntry(k, IndexData(old(nextFree)))], pid, INVALID_PAGE))
      ensures old(PendingIn(pid, x, s0, e)) ==>
        && (returned.None? ==> InOrder())
        && (returned.Some? ==> PendingAt(pid, returned.value))
        && UpKept(old(level), old(up), up, old(level[pid]))
    {
      var rootId := headerPage.GetRootId();
      var pushUp := SplitIndexPage(pid, e, x, s0);
      if pid == rootId {
        ghost var pages1, level1, up1 := pages, level, up;
        GrowRoot(pid, pushUp);
        GrowsTrans(old(pages), old(level), pages1, level1, pages, level);
        UpKeptTrans(old(pages), old(level), old(up), pages1, level1, up1, up, old(level[pid]), 0, old(level[pid]));
        returned := None;
      } else {
        returned := Some(pushUp);
      }
    }

    /**
     * The split of a full index page in place: the page keeps its
     * identifier, the upper half goes to a newly allocated page on the same
     * level, and the returned entry, pushed up, names the new page. On the
     * ordered tree, with the separator of child `x` pending for this page,
     * the lower half answers for the keys below the pushed-up key, the new
     * page for the rest and adopts its children, and the pushed-up entry is
     * pending for this page's parent.
     */
    method SplitIndexPage(pid: PageId, e: KeyDataEntry, ghost x: PageId, ghost s0: nat) returns (pushUp: KeyDataEntry)
      requires Valid() && headerPage != null
      requires pid in pages && pages[pid].nodeType == IndexNode && |pages[pid].entries| >= indexCapacity
      requires Separator(pages, level, e, level[pid] - 1)
      modifies this
      ensures Valid() && headerPage == old(headerPage)
      ensures pid in pages && level[pid] == old(level[pid])
      ensures Separator(pages, level, pushUp, old(level[pid]))
      ensures Grows(old(pages), old(level), pages, level)
      ensures SameAbove(old(pages), old(level), pages, old(level[pid]))
      ensures Contents() == old(Contents())
      ensures nextFree == old(nextFree) + 1 && old(nextFree) !in old(pages) && old(nextFree) in pages
      ensures pages == old(pages)[pid := pages[pid]][old(nextFree) := pages[old(nextFree)]]
      ensures chain == old(chain)
      ensures pages[pid].prevPage == old(pages[pid].prevPage) && pushUp.data == IndexData(old(nextFree))
      ensures forall y :: y in pages[pid].entries ==> y.key <= pushUp.key
      ensures forall y :: y in pages[old(nextFree)].entries ==> pushUp.key <= y.key
      ensures multiset(pages[pid].entries) + multiset(pages[old(nextFree)].entries)
              + multiset{KeyDataEntry(pushUp.key, IndexData(pages[old(nextFree)].prevPage))}
           == multiset(old(pages[pid].entries)) + multiset{e}
      ensures old(PendingIn(pid, x, s0, e)) ==>
        && PendingAt(pid, pushUp)
        && UpKept(old(level), old(up), up, old(level[pid]))
    {
      var parentPage := pages[pid];
      assert PageOk(parentPage, leafCapacity, indexCapacity);
      var newId := nextFree;
      var left, right;
      left, right, pushUp := SplitIndexAndPlace(parentPage, e, newId, indexCapacity);
      IndexSplitStep(pages, level, chain, leafCapacity, indexCapacity, nextFree,
                     pid, e, left, right, headerPage.GetRootId(), pushUp);
      IndexSplitPendingIf(pages, level, chain, leafCapacity, indexCapacity, nextFree,
                          span, up, headerPage.GetRootId(), pid, x, e, s0, left, right, pushUp);
      ghost var span' := if pid in span then CutSpan(span, pid, newId, pushUp.key) else span;
      Commit(pages[pid := left][newId := right], nextFree + 1, level[newId := level[pid]], chain,
             span', Sibling(Adopt(up, right, newId), pid, newId));
    }

    /**
     * Root growth: a new index page holding exactly `separator`, whose left
     * link is the old root, becomes the root named by the header. After a
     * split of the ordered tree's root the new root answers for every key
     * and adopts both halves, and the tree is in order again.
     */
    method GrowRoot(oldRoot: PageId, separator: KeyDataEntry)
      requires TreeInv(pages, level, chain, leafCapacity, indexCapacity, nextFree) && headerPage != null
      requires oldRoot in pages && LeftmostFrom(pages, level, oldRoot) == chain[0]
      requires Separator(pages, level, separator, level[oldRoot])
      modifies this, headerPage
      ensures Valid() && headerPage == old(headerPage)
      ensures pages == old(pages)[old(nextFree) := SortedPage(IndexNode, [separator], oldRoot, INVALID_PAGE)]
      ensures level == old(level)[old(nextFree) := old(level[oldRoot]) + 1]
      ensures nextFree == old(nextFree) + 1 && chain == old(chain)
      ensures headerPage.GetRootId() == old(nextFree)
      ensures headerPage.GetKeyType() == old(headerPage.GetKeyType())
      ensures headerPage.GetMaxKeyFieldLength() == old(headerPage.GetMaxKeyFieldLength())
      ensures Grows(old(pages), old(level), pages, level) && Contents() == old(Contents())
      ensures forall q :: q in old(pages) ==> q in pages && pages[q] == old(pages)[q]
      ensures span == old(span)[old(nextFree) := Whole]
      ensures up == old(up)[oldRoot := old(nextFree)][separator.data.pageNo := old(nextFree)]
      ensures old(PendingAt(oldRoot, separator) && oldRoot == headerPage.GetRootId()) ==>
        InOrder() && UpKept(old(level), old(up), up, 0)
    {
      var rootId := AddRootPage(oldRoot, separator);
      headerPage.SetRootPageId(rootId);
    }

    /** The page work of root growth: the new root page is stored under the next free id, one level up. */
    method AddRootPage(oldRoot: PageId, separator: KeyDataEntry) returns (rootId: PageId)
      requires TreeInv(pages, level, chain, leafCapacity, indexCapacity, nextFree)
      requires oldRoot in pages && LeftmostFrom(pages, level, oldRoot) == chain[0]
      requires Separator(pages, level, separator, level[oldRoot])
      modifies this
      ensures rootId == old(nextFree) && rootId !in old(pages) && headerPage == old(headerPage)
      ensures TreeInv(pages, level, chain, leafCapacity, indexCapacity, nextFree)
      ensures RootOk(pages, level, chain, rootId)
      ensures pages == old(pages)[rootId := SortedPage(IndexNode, [separator], oldRoot, INVALID_PAGE)]
      ensures level == old(level)[rootId := old(level[oldRoot]) + 1]
      ensures nextFree == old(nextFree) + 1 && chain == old(chain)
      ensures Grows(old(pages), old(level), pages, level) && Contents() == old(Contents())
      ensures span == old(span)[rootId := Whole]
      ensures up == old(up)[oldRoot := rootId][separator.data.pageNo := rootId]
      ensures old(Pending(pages, span, up, chain, oldRoot, oldRoot, separator)) ==>
        Ordered(pages, span, up, chain, rootId) && UpKept(old(level), old(up), up, 0)
    {
      rootId := nextFree;
      var rootPage := NewRootPage(separator, oldRoot, indexCapacity);
      GrowRootKeepsInvariant(pages, level, chain, leafCapacity, indexCapacity, nextFree, oldRoot, rootPage);
      GrowRootOrderedIf(pages, level, span, up, chain, oldRoot, separator, rootId);
      Commit(pages[rootId := rootPage], nextFree + 1, level[rootId := level[oldRoot] + 1], chain,
             span[rootId := Whole], up[oldRoot := rootId][separator.data.pageNo := rootId]);
    }

    /**
     * search(key, root): from the index root, follow getPageNoByKey down to
     * a leaf; the leaf's id is returned.
     */
    method Search(key: Key, rootId: PageId) returns (leafId: PageId)
      requires Valid() && rootId in pages && pages[rootId].nodeType == IndexNode
      ensures leafId == LeafFor(pages, level, rootId, key)
      ensures leafId in pages && pages[leafId].nodeType == LeafNode
      ensures InOrder() && rootId == headerPage.GetRootId() ==>
        && leafId in span && InSpan(key, span[leafId])
        && forall x :: x in Contents() && x.key == key ==> x in pages[leafId].entries
    {
      var first := ChildLink(pages, level, chain, leafCapacity, indexCapacity, nextFree, rootId, key);
      var currentPageId := GetPageNoByKey(pages[rootId], key);
      var currentPage := pages[currentPageId];
      while currentPage.nodeType == IndexNode
        invariant currentPageId in pages && currentPage == pages[currentPageId]
        invariant LeafFor(pages, level, currentPageId, key) == LeafFor(pages, level, rootId, key)
        decreases level[currentPageId]
      {
        var child := ChildLink(pages, level, chain, leafCapacity, indexCapacity, nextFree, currentPageId, key);
        currentPageId := GetPageNoByKey(currentPage, key);
        currentPage := pages[currentPageId];
      }
      leafId := currentPageId;
      if InOrder() && rootId == headerPage.GetRootId() {
        SearchFindsAll(pages, level, chain, leafCapacity, indexCapacity, nextFree, span, up, rootId, key);
      }
    }

    /**
     * Delete(key, rid). Under an index root: descend to the leaf the search
     * reaches and remove the first entry there whose key is `key`; the rid
     * is not looked at. Under a leaf root: remove the slot whose number is
     * rid's slot number, whatever its key. Reports whether an entry was
     * removed; a closed tree removes nothing.
     */
    method Delete(key: Key, rid: Rid) returns (deleted: bool, ghost removed: KeyDataEntry)
      requires Valid()
      modifies this
      ensures Valid() && headerPage == old(headerPage)
      ensures level == old(level) && chain == old(chain) && nextFree == old(nextFree)
      ensures span == old(span) && up == old(up)
      ensures !deleted ==> pages == old(pages)
      ensures deleted ==> removed in old(Contents()) && multiset(old(Contents())) == multiset(Contents()) + multiset{removed}
      ensures headerPage == null ==> !deleted
      ensures old(InOrder()) ==> InOrder()
      ensures headerPage != null && old(pages)[headerPage.GetRootId()].nodeType == IndexNode ==>
        var leafId := LeafFor(old(pages), level, headerPage.GetRootId(), key);
        && leafId in old(pages)
        && (var leaf := old(pages)[leafId];
            && (deleted <==> FirstKeyIndex(leaf.entries, key).Some?)
            && (deleted ==>
                  && removed.key == key
                  && pages == old(pages)[leafId := leaf.(entries := RemoveAt(leaf.entries, FirstKeyIndex(leaf.entries, key).value))]))
      ensures old(InOrder()) && old(pages)[headerPage.GetRootId()].nodeType == IndexNode ==>
        (deleted <==> !old(KeyNew(key))) && KeyNew(key)
      ensures headerPage != null && old(pages)[headerPage.GetRootId()].nodeType == LeafNode ==>
        var root := old(pages)[headerPage.GetRootId()];
        && (deleted <==> 0 <= rid.slotNo < |root.entries|)
        && (deleted ==>
              && removed == root.entries[rid.slotNo]
              && pages == old(pages)[headerPage.GetRootId() := root.(entries := RemoveAt(root.entries, rid.slotNo))])
    {
      deleted, removed := false, KeyDataEntry(key, LeafData(rid));
      if headerPage == null {
        return;
      }
      var rootId := headerPage.GetRootId();
      var rootPage := pages[rootId];
      if rootPage.nodeType == IndexNode {
        deleted, removed := DeleteThroughIndex(key, rootId);
      } else {
        deleted, removed := DeleteFromLeafRoot(rid, rootId);
      }
    }

    /**
     * Delete below an index root: search for the leaf of `key`, and there
     * delEntry the first entry with that key, if any.
     */
    method DeleteThroughIndex(key: Key, rootId: PageId) returns (deleted: bool, ghost removed: KeyDataEntry)
      requires Valid() && headerPage != null && rootId == headerPage.GetRootId()
      requires rootId in pages && pages[rootId].nodeType == IndexNode
      modifies this
      ensures Valid() && headerPage == old(headerPage)
      ensures level == old(level) && chain == old(chain) && nextFree == old(nextFree)
      ensures span == old(span) && up == old(up)
      ensures !deleted ==> pages == old(pages)
      ensures deleted ==> removed in old(Contents()) && multiset(old(Contents())) == multiset(Contents()) + multiset{removed}
      ensures var leafId := LeafFor(old(pages), level, rootId, key);
        && leafId in old(pages)
        && (var leaf := old(pages)[leafId];
            && (deleted <==> FirstKeyIndex(leaf.entries, key).Some?)
            && (deleted ==>
                  && removed.key == key
                  && pages == old(pages)[leafId := leaf.(entries := RemoveAt(leaf.entries, FirstKeyIndex(leaf.entries, key).value))]))
      ensures old(InOrder()) ==> InOrder() && (deleted <==> !old(KeyNew(key))) && KeyNew(key)
    {
      deleted, removed := false, KeyDataEntry(key, LeafData(Rid(0, 0)));
      SearchDecidesKey(pages, level, chain, leafCapacity, indexCapacity, nextFree, span, up, rootId, key);
      var leafId := Search(key, rootId);
      var requiredPage := pages[leafId];
      PageShape(pages, level, chain, leafCapacity, indexCapacity, nextFree, leafId);
      var currentEntry := FindEntry(requiredPage, key);
      if currentEntry.Some? {
        deleted, removed := RemoveFromLeaf(leafId, currentEntry.value);
      }
    }

    /**
     * delEntry on the leaf found by the search: the first entry with the
     * key of `entry`, which is `entry` itself, leaves the leaf.
     */
    method RemoveFromLeaf(leafId: PageId, entry: KeyDataEntry) returns (deleted: bool, ghost removed: KeyDataEntry)
      requires Valid() && headerPage != null
      requires leafId in pages && pages[leafId].nodeType == LeafNode
      requires FirstKeyIndex(pages[leafId].entries, entry.key).Some?
      requires entry == pages[leafId].entries[FirstKeyIndex(pages[leafId].entries, entry.key).value]
      modifies this
      ensures Valid() && headerPage == old(headerPage)
      ensures level == old(level) && chain == old(chain) && nextFree == old(nextFree)
      ensures span == old(span) && up == old(up)
      ensures deleted && removed == entry
      ensures removed in old(Contents()) && multiset(old(Contents())) == multiset(Contents()) + multiset{removed}
      ensures var leaf := old(pages)[leafId];
        pages == old(pages)[leafId := leaf.(entries := RemoveAt(leaf.entries, FirstKeyIndex(leaf.entries, entry.key).value))]
      ensures old(InOrder()) ==> InOrder() && KeyNew(entry.key)
    {
      var requiredPage := pages[leafId];
      PageShape(pages, level, chain, leafCapacity, indexCapacity, nextFree, leafId);
      var q;
      q, deleted := DelEntry(requiredPage, entry);
      removed := entry;
      LeafRemovalKeepsInvariant(pages, level, chain, leafCapacity, indexCapacity, nextFree,
                                leafId, FirstKeyIndex(requiredPage.entries, entry.key).value, headerPage.GetRootId());
      LeafRemoveOrderedIf(pages, span, up, chain, headerPage.GetRootId(), leafId, FirstKeyIndex(requiredPage.entries, entry.key).value);
      pages := pages[leafId := q];
    }

    /** Delete when the root is a leaf: deleteSortedRecord on the slot named by `rid`. */
    method DeleteFromLeafRoot(rid: Rid, rootId: PageId) returns (deleted: bool, ghost removed: KeyDataEntry)
      requires Valid() && headerPage != null && rootId == headerPage.GetRootId()
      requires rootId in pages && pages[rootId].nodeType == LeafNode
      modifies this
      ensures Valid() && headerPage == old(headerPage)
      ensures level == old(level) && chain == old(chain) && nextFree == old(nextFree)
      ensures span == old(span) && up == old(up)
      ensures !deleted ==> pages == old(pages)
      ensures deleted ==> removed in old(Contents()) && multiset(old(Contents())) == multiset(Contents()) + multiset{removed}
      ensures var root := old(pages)[rootId];
        && (deleted <==> 0 <= rid.slotNo < |root.entries|)
        && (deleted ==>
              && removed == root.entries[rid.slotNo]
              && pages == old(pages)[rootId := root.(entries := RemoveAt(root.entries, rid.slotNo))])
      ensures old(InOrder()) ==> InOrder() && (deleted ==> KeyNew(removed.key))
    {
      removed := KeyDataEntry(0, LeafData(rid));
      var rootPage := pages[rootId];
      var r := DeleteSortedRecord(rootPage, rid.slotNo);
      deleted := r.1;
      if deleted {
        removed := rootPage.entries[rid.slotNo];
        LeafRemovalKeepsInvariant(pages, level, chain, leafCapacity, indexCapacity, nextFree,
                                  rootId, rid.slotNo, rootId);
        LeafRemoveOrderedIf(pages, span, up, chain, rootId, rootId, rid.slotNo);
        pages := pages[rootId := r.0];
      }
    }
  }
}
