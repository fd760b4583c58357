/**
 * BTFileScan: a cursor over the leaf chain of a B+ tree, with an optional
 * low and an optional high key bound.
 *
 * The cursor names its current leaf by page id and reads that leaf from the
 * tree's page store at every step, so it sees what a delete does to the leaf
 * it stands on. Beside the slot locator the model keeps, as ghost state, the
 * position of the current leaf on the chain; `Consumed` turns the pair
 * (leaf, slot) into the number of entries of the tree, in chain order, that
 * lie at or before the cursor.
 */
module BTFileScan {
  import opened BT
  import opened BTSortedPage
  import opened BTLeafPage
  import opened BTIndexPage
  import opened BTreeInvariants
  import opened BTree
  import opened BTreeOrder

  /**
   * On an ordered tree, each entry of the leaf chain has a key strictly
   * above the one before it: a scan returns the entries in key order.
   */
  lemma ScanStepInKeyOrder(pages: Pages, span: Spans, up: Parents, chain: seq<PageId>, root: PageId, i: nat)
    requires ChainOk(pages, chain)
    ensures Ordered(pages, span, up, chain, root) && 0 < i < |ChainEntries(pages, chain)| ==>
      ChainEntries(pages, chain)[i - 1].key < ChainEntries(pages, chain)[i].key
  {
    if Ordered(pages, span, up, chain, root) {
      ContentsStrictlySorted(pages, span, up, chain);
    }
  }

  /** ScanStepInKeyOrder for the tree `t` as it stands. */
  lemma TreeInKeyOrder(t: BTreeFile, i: nat)
    requires t.Valid()
    ensures t.InOrder() && 0 < i < |t.Contents()| ==> t.Contents()[i - 1].key < t.Contents()[i].key
  {
    if t.InOrder() {
      ScanStepInKeyOrder(t.pages, t.span, t.up, t.chain, t.headerPage.GetRootId(), i);
    }
  }

  /**
   * On the ordered tree `t`, the search for the key in slot `rec` of leaf
   * `chain[j]` reaches that leaf, where the slot is the first with the key.
   */
  lemma SearchFindsCursor(t: BTreeFile, j: nat, rec: nat)
    requires t.Valid() && j < |t.chain| && t.chain[j] in t.pages && rec < |t.pages[t.chain[j]].entries|
    ensures t.InOrder() ==>
      var k := t.pages[t.chain[j]].entries[rec].key;
      && LeafFor(t.pages, t.level, t.headerPage.GetRootId(), k) == t.chain[j]
      && FirstKeyIndex(t.pages[t.chain[j]].entries, k) == Some(rec)
  {
    if t.InOrder() {
      SearchFindsSlot(t.pages, t.level, t.chain, t.leafCapacity, t.indexCapacity, t.nextFree,
                      t.span, t.up, t.headerPage.GetRootId(), j, rec);
    }
  }

  /** A leaf of the store whose next link is none or another leaf of the store. */
  ghost predicate CanAdvance(pages: Pages, leaf: PageId)
  {
    && leaf in pages && IsLeafPage(pages[leaf])
    && (pages[leaf].nextPage != INVALID_PAGE ==>
          pages[leaf].nextPage in pages && IsLeafPage(pages[pages[leaf].nextPage]))
  }

  /** The chain of a well-formed tree, with what a scan needs of every leaf on it. */
  ghost predicate LeafChain(pages: Pages, chain: seq<PageId>)
  {
    && ChainOk(pages, chain)
    && forall i :: 0 <= i < |chain| ==> chain[i] != INVALID_PAGE && CanAdvance(pages, chain[i])
  }

  /**
   * advanceEntry from slot `rec` of `leaf`: the next slot of the leaf; past
   * its last slot, the first slot of the next leaf, or the end of the scan
   * (no leaf, no entry) when there is no next leaf. Entering an empty leaf
   * yields no entry and leaves the slot locator as it was.
   */
  ghost function Advance(pages: Pages, leaf: PageId, rec: nat): (Option<PageId>, nat, Option<KeyDataEntry>)
    requires CanAdvance(pages, leaf)
  {
    var next := BTLeafPage.GetNext(pages[leaf], rec);
    if next.0.Some? then (Some(leaf), next.1, next.0)
    else if pages[leaf].nextPage == INVALID_PAGE then (None, next.1, None)
    else
      var first := BTLeafPage.GetFirst(pages[pages[leaf].nextPage], next.1);
      (Some(pages[leaf].nextPage), first.1, first.0)
  }

  /**
   * How many entries of the tree lie at or before slot `rec` of leaf
   * `chain[j]`: all entries of the leaves before it, and those of its own
   * slots up to `rec`.
   */
  ghost function Consumed(pages: Pages, chain: seq<PageId>, j: nat, rec: nat): nat
    requires j < |chain| && chain[j] in pages
  {
    Offset(pages, chain, j) + (if rec + 1 <= |pages[chain[j]].entries| then rec + 1 else |pages[chain[j]].entries|)
  }

  /** The chain of a well-formed tree satisfies what a scan needs. */
  lemma TreeLeafChain(pages: Pages, level: Levels, chain: seq<PageId>,
                      leafCapacity: nat, indexCapacity: nat, nextFree: nat)
    requires TreeInv(pages, level, chain, leafCapacity, indexCapacity, nextFree)
    ensures LeafChain(pages, chain)
  {
    forall i | 0 <= i < |chain|
      ensures chain[i] != INVALID_PAGE && CanAdvance(pages, chain[i])
    {
      assert PageOk(pages[chain[i]], leafCapacity, indexCapacity);
      if i + 1 < |chain| {
        assert pages[chain[i]].nextPage == chain[i + 1];
        assert PageOk(pages[chain[i + 1]], leafCapacity, indexCapacity);
      }
    }
  }

  /** The next link of a leaf on the chain is the next leaf of the chain, or none for the last one. */
  lemma NextOnChain(pages: Pages, chain: seq<PageId>, j: nat)
    requires LeafChain(pages, chain) && j < |chain|
    ensures pages[chain[j]].nextPage == INVALID_PAGE <==> j + 1 == |chain|
    ensures j + 1 < |chain| ==> pages[chain[j]].nextPage == chain[j + 1]
  {
    if j + 1 < |chain| {
      assert pages[chain[j]].nextPage == chain[j + 1];
    }
  }

  /** The chain position of the leaf advanceEntry from slot `rec` of leaf `chain[j]` stands on afterwards. */
  ghost function NextIndex(pages: Pages, chain: seq<PageId>, j: nat, rec: nat): nat
    requires j < |chain| && chain[j] in pages
  {
    if rec + 1 < |pages[chain[j]].entries| || j + 1 == |chain| then j else j + 1
  }

  /**
   * One step of advanceEntry from leaf `chain[j]`, slot `rec`, in terms of
   * the entries of the tree: with `d` entries at or before the cursor, the
   * step yields entry `d` and moves past it, or yields nothing exactly when
   * the leaf is used up and the next leaf is empty or missing; it ends the
   * scan exactly when the last leaf is used up, and then every entry has
   * been passed.
   */
  ghost predicate StepInOrder(pages: Pages, chain: seq<PageId>, j: nat, rec: nat)
    requires LeafChain(pages, chain) && j < |chain|
  {
    var r := Advance(pages, chain[j], rec);
    var d := Consumed(pages, chain, j, rec);
    var all := ChainEntries(pages, chain);
    var j' := NextIndex(pages, chain, j, rec);
    && j' < |chain|
    && (r.0.Some? ==> r.0.value == chain[j'])
    && (r.0.None? <==> j + 1 == |chain| && d == |all|)
    && (r.2.None? <==> d == Offset(pages, chain, j + 1) && (j + 1 == |chain| || pages[chain[j + 1]].entries == []))
    && (r.2.Some? ==> r.0.Some? && d < |all| && r.2.value == all[d] && Consumed(pages, chain, j', r.1) == d + 1)
    && (r.0.Some? && r.2.None? ==> Consumed(pages, chain, j', r.1) == d && pages[chain[j']].entries == [])
  }

  /** Every step of advanceEntry along the chain goes as StepInOrder says. */
  lemma AdvanceStep(pages: Pages, chain: seq<PageId>, j: nat, rec: nat)
    requires LeafChain(pages, chain) && j < |chain|
    ensures StepInOrder(pages, chain, j, rec)
  {
    NextOnChain(pages, chain, j);
    OffsetNext(pages, chain, j);
    if rec + 1 < |pages[chain[j]].entries| {
      AdvanceInLeaf(pages, chain, j, rec);
    } else if j + 1 == |chain| {
      assert chain[..|chain|] == chain;
    } else {
      AdvanceToNextLeaf(pages, chain, j, rec);
    }
  }

  /** A step to the next slot of the same leaf yields the next entry of the tree. */
  lemma AdvanceInLeaf(pages: Pages, chain: seq<PageId>, j: nat, rec: nat)
    requires LeafChain(pages, chain) && j < |chain| && rec + 1 < |pages[chain[j]].entries|
    requires Offset(pages, chain, j + 1) == Offset(pages, chain, j) + |pages[chain[j]].entries|
    ensures StepInOrder(pages, chain, j, rec)
  {
    ChainEntriesAt(pages, chain, j, rec + 1);
  }

  /** A step past the last slot of a leaf that is not the last one enters the next leaf. */
  lemma AdvanceToNextLeaf(pages: Pages, chain: seq<PageId>, j: nat, rec: nat)
    requires LeafChain(pages, chain) && j + 1 < |chain| && rec + 1 >= |pages[chain[j]].entries|
    requires pages[chain[j]].nextPage == chain[j + 1]
    requires Offset(pages, chain, j + 1) == Offset(pages, chain, j) + |pages[chain[j]].entries|
    ensures StepInOrder(pages, chain, j, rec)
  {
    if pages[chain[j + 1]].entries != [] {
      ChainEntriesAt(pages, chain, j + 1, 0);
    }
  }

  /** The store after the slot `rec` of page `id` is removed. */
  ghost function RemoveSlot(pages: Pages, id: PageId, rec: nat): Pages
    requires id in pages && rec < |pages[id].entries|
  {
    pages[id := pages[id].(entries := RemoveAt(pages[id].entries, rec))]
  }

  /** Removing a slot of a leaf keeps what a scan needs of the chain. */
  lemma RemoveSlotKeepsLeafChain(pages: Pages, chain: seq<PageId>, j: nat, rec: nat)
    requires LeafChain(pages, chain) && j < |chain| && rec < |pages[chain[j]].entries|
    ensures LeafChain(RemoveSlot(pages, chain[j], rec), chain)
  {
    var id := chain[j];
    var p' := pages[id].(entries := RemoveAt(pages[id].entries, rec));
    var pages' := pages[id := p'];
    LeafUpdateKeepsChain(pages, chain, id, p');
    RemoveAtKeeps(pages[id].entries, rec);
    assert IsLeafPage(p');
    forall i | 0 <= i < |chain|
      ensures chain[i] != INVALID_PAGE && CanAdvance(pages', chain[i])
    {
      assert CanAdvance(pages, chain[i]);
    }
  }

  /** Removing a slot of leaf `chain[j]` leaves the leaves before it, and so its offset, as they were. */
  lemma RemoveSlotOffsets(pages: Pages, chain: seq<PageId>, j: nat, rec: nat)
    requires forall a, b :: 0 <= a < b < |chain| ==> chain[a] != chain[b]
    requires forall k :: 0 <= k < |chain| ==> chain[k] in pages
    requires j < |chain| && rec < |pages[chain[j]].entries|
    ensures var pages' := RemoveSlot(pages, chain[j], rec);
      && Offset(pages', chain, j) == Offset(pages, chain, j)
      && Offset(pages', chain, j + 1) == Offset(pages, chain, j + 1) - 1
  {
    var pages' := RemoveSlot(pages, chain[j], rec);
    forall i | 0 <= i < |chain[..j]|
      ensures chain[..j][i] in pages && chain[..j][i] in pages' && pages'[chain[..j][i]].entries == pages[chain[..j][i]].entries
    {
      assert chain[..j][i] == chain[i] && chain[i] != chain[j];
    }
    ChainEntriesFrame(pages, pages', chain[..j]);
    OffsetNext(pages, chain, j);
    OffsetNext(pages', chain, j);
  }

  /**
   * Removing slot `rec` of leaf `chain[j]` takes exactly entry
   * `Offset(j) + rec` out of the tree's entries.
   */
  lemma RemoveSlotContents(pages: Pages, chain: seq<PageId>, j: nat, rec: nat)
    requires forall a, b :: 0 <= a < b < |chain| ==> chain[a] != chain[b]
    requires forall k :: 0 <= k < |chain| ==> chain[k] in pages
    requires j < |chain| && rec < |pages[chain[j]].entries|
    ensures var o := Offset(pages, chain, j);
            var all := ChainEntries(pages, chain);
      && o + rec < |all|
      && ChainEntries(RemoveSlot(pages, chain[j], rec), chain) == all[..o + rec] + all[o + rec + 1..]
  {
    var leaf := pages[chain[j]].entries;
    var pre, post := ChainEntries(pages, chain[..j]), ChainEntries(pages, chain[j + 1..]);
    var q := pages[chain[j]].(entries := RemoveAt(leaf, rec));
    ReplaceInChain(pages, chain, j, q);
    assert RemoveSlot(pages, chain[j], rec) == pages[chain[j] := q];
    RemoveAtInside(pre, leaf, post, rec);
  }

  /** Removing position `i` of the middle part is removing position `|pre| + i` of the whole. */
  lemma RemoveAtInside(pre: seq<KeyDataEntry>, mid: seq<KeyDataEntry>, post: seq<KeyDataEntry>, i: nat)
    requires i < |mid|
    ensures var all := pre + mid + post;
      && |pre| + i < |all|
      && pre + RemoveAt(mid, i) + post == all[..|pre| + i] + all[|pre| + i + 1..]
  {
    var all := pre + mid + post;
    assert all[..|pre| + i] == pre + mid[..i];
    assert all[|pre| + i + 1..] == mid[i + 1..] + post;
  }

  /**
   * Where the corrected delete_current puts the cursor once the tree has
   * deleted the entry: the slot it stood on now holds the entry that
   * followed; when the leaf has no such slot any more, it moves on as
   * advanceEntry does.
   */
  ghost function Reposition(pages: Pages, leaf: PageId, rec: nat): (Option<PageId>, nat, Option<KeyDataEntry>)
    requires CanAdvance(pages, leaf)
  {
    if rec < |pages[leaf].entries| then (Some(leaf), rec, Some(BTLeafPage.GetCurrent(pages[leaf], rec)))
    else Advance(pages, leaf, rec)
  }

  /**
   * What removing slot `rec` of leaf `chain[j]` does to the chain: the
   * chain still suits a scan, the leaves before it keep their offset, and
   * exactly entry `Offset(j) + rec` leaves the tree's entries.
   */
  ghost predicate SlotRemoved(pages: Pages, chain: seq<PageId>, j: nat, rec: nat)
    requires LeafChain(pages, chain) && j < |chain| && rec < |pages[chain[j]].entries|
  {
    var pages' := RemoveSlot(pages, chain[j], rec);
    var o := Offset(pages, chain, j);
    var all := ChainEntries(pages, chain);
    && LeafChain(pages', chain)
    && Offset(pages', chain, j) == o
    && o + rec < |all|
    && ChainEntries(pages', chain) == all[..o + rec] + all[o + rec + 1..]
  }

  lemma RemoveSlotFacts(pages: Pages, chain: seq<PageId>, j: nat, rec: nat)
    requires LeafChain(pages, chain) && j < |chain| && rec < |pages[chain[j]].entries|
    ensures SlotRemoved(pages, chain, j, rec)
  {
    RemoveSlotKeepsLeafChain(pages, chain, j, rec);
    RemoveSlotOffsets(pages, chain, j, rec);
    RemoveSlotContents(pages, chain, j, rec);
  }

  /**
   * delete_current as written advances first and deletes afterwards. When
   * the delete takes out the current slot `rec` of the leaf and two more
   * entries follow it there, the cursor holds the entry that followed the
   * deleted one (the next get_next returns it) but stands one slot further:
   * it has passed `d + 1` entries of the new tree, so entry `d`, the second
   * follower of the deleted entry, is never returned.
   */
  ghost predicate SkipsFollower(pages: Pages, chain: seq<PageId>, j: nat, rec: nat)
    requires LeafChain(pages, chain) && j < |chain| && rec + 2 < |pages[chain[j]].entries|
  {
    var pages' := RemoveSlot(pages, chain[j], rec);
    && LeafChain(pages', chain)
    && (var c := Advance(pages, chain[j], rec);
        var d := Consumed(pages, chain, j, rec);
        var all := ChainEntries(pages, chain);
        var all' := ChainEntries(pages', chain);
        && 0 < d && d + 1 < |all| && all' == all[..d - 1] + all[d..]
        && c.0 == Some(chain[j]) && c.2 == Some(all'[d - 1])
        && Consumed(pages', chain, j, c.1) == d + 1
        && all'[d] == pages[chain[j]].entries[rec + 2])
  }

  lemma AsWrittenDeleteSkips(pages: Pages, chain: seq<PageId>, j: nat, rec: nat)
    requires LeafChain(pages, chain) && j < |chain| && rec + 2 < |pages[chain[j]].entries|
    ensures SkipsFollower(pages, chain, j, rec)
  {
    var leaf := pages[chain[j]].entries;
    var pages' := RemoveSlot(pages, chain[j], rec);
    var o := Offset(pages, chain, j);
    RemoveSlotFacts(pages, chain, j, rec);
    assert pages'[chain[j]].entries == RemoveAt(leaf, rec);
    assert Advance(pages, chain[j], rec) == (Some(chain[j]), rec + 1, Some(leaf[rec + 1]));
    assert Consumed(pages, chain, j, rec) == o + rec + 1;
    assert Consumed(pages', chain, j, rec + 1) == o + rec + 2;
    ChainEntriesAt(pages', chain, j, rec);
    ChainEntriesAt(pages', chain, j, rec + 1);
  }

  /**
   * The corrected delete_current: when the delete takes out the current
   * slot `rec` of the leaf, the repositioned cursor holds the entry that
   * followed the deleted one and has passed exactly the entries up to it,
   * so the scan goes on with the entry after it and skips nothing; when no
   * entry follows, the cursor holds none and has passed only the entries
   * before the deleted one.
   */
  ghost predicate RepositionedInOrder(pages: Pages, chain: seq<PageId>, j: nat, rec: nat)
    requires LeafChain(pages, chain) && j < |chain| && rec < |pages[chain[j]].entries|
  {
    var pages' := RemoveSlot(pages, chain[j], rec);
    && LeafChain(pages', chain)
    && (var c := Reposition(pages', chain[j], rec);
        var d := Consumed(pages, chain, j, rec);
        var all := ChainEntries(pages, chain);
        var all' := ChainEntries(pages', chain);
        var j' := if rec < |pages'[chain[j]].entries| then j else NextIndex(pages', chain, j, rec);
        && 0 < d <= |all| && all' == all[..d - 1] + all[d..]
        && j' < |chain| && (c.0.Some? ==> c.0.value == chain[j'])
        && (c.2.Some? ==> c.0.Some? && d - 1 < |all'| && c.2.value == all'[d - 1] && Consumed(pages', chain, j', c.1) == d)
        && (c.0.Some? && c.2.None? ==> Consumed(pages', chain, j', c.1) == d - 1)
        && (c.0.None? ==> d - 1 == |all'|))
  }

  lemma RepositionKeepsPlace(pages: Pages, chain: seq<PageId>, j: nat, rec: nat)
    requires LeafChain(pages, chain) && j < |chain| && rec < |pages[chain[j]].entries|
    ensures RepositionedInOrder(pages, chain, j, rec)
  {
    RemoveSlotFacts(pages, chain, j, rec);
    if rec + 1 < |pages[chain[j]].entries| {
      RepositionStays(pages, chain, j, rec);
    } else {
      RepositionMoves(pages, chain, j, rec);
    }
  }

  /** Case of RepositionKeepsPlace where the leaf still has a slot `rec`. */
  lemma RepositionStays(pages: Pages, chain: seq<PageId>, j: nat, rec: nat)
    requires LeafChain(pages, chain) && j < |chain| && rec + 1 < |pages[chain[j]].entries|
    requires SlotRemoved(pages, chain, j, rec)
    ensures RepositionedInOrder(pages, chain, j, rec)
  {
    var leaf := pages[chain[j]].entries;
    var pages' := RemoveSlot(pages, chain[j], rec);
    var o := Offset(pages, chain, j);
    assert pages'[chain[j]].entries == RemoveAt(leaf, rec);
    assert Consumed(pages, chain, j, rec) == o + rec + 1;
    assert Reposition(pages', chain[j], rec) == (Some(chain[j]), rec, Some(leaf[rec + 1]));
    assert Consumed(pages', chain, j, rec) == o + rec + 1;
    ChainEntriesAt(pages', chain, j, rec);
  }

  /** Case of RepositionKeepsPlace where `rec` was the last slot of the leaf. */
  lemma RepositionMoves(pages: Pages, chain: seq<PageId>, j: nat, rec: nat)
    requires LeafChain(pages, chain) && j < |chain| && rec + 1 == |pages[chain[j]].entries|
    requires SlotRemoved(pages, chain, j, rec)
    ensures RepositionedInOrder(pages, chain, j, rec)
  {
    var pages' := RemoveSlot(pages, chain[j], rec);
    var o := Offset(pages, chain, j);
    assert |pages'[chain[j]].entries| == rec;
    assert Consumed(pages, chain, j, rec) == o + rec + 1;
    AdvanceStep(pages', chain, j, rec);
    assert Consumed(pages', chain, j, rec) == o + rec;
    assert Reposition(pages', chain[j], rec) == Advance(pages', chain[j], rec);
  }

  /** Every leaf of the chain that starts at or before entry `i` of the tree holds an entry. */
  ghost predicate NonEmptyThrough(pages: Pages, chain: seq<PageId>, i: nat)
  {
    forall j :: 0 <= j < |chain| && chain[j] in pages && Offset(pages, chain, j) <= i ==> pages[chain[j]].entries != []
  }

  /**
   * What the low-bound search of the first get_next relies on, as its loop
   * has no other exit: the low key is a key of the tree, and no leaf up to
   * its first occurrence is empty.
   */
  ghost predicate LowKeyReachable(pages: Pages, chain: seq<PageId>, k: Key)
  {
    var i := FirstKeyIndex(ChainEntries(pages, chain), k);
    i.Some? && NonEmptyThrough(pages, chain, i.value)
  }

  class BTFileScan {
    /** The tree being scanned. */
    const btree: BTreeFile
    /** The leaf the cursor stands on; none once the scan is over. */
    var currentLeaf: Option<PageId>
    /** The slot locator within the current leaf. */
    var currentRecord: nat
    /** The bounds; none stands for no bound. */
    const lowKey: Option<Key>
    const highKey: Option<Key>
    const keyType: int
    const maxKeysize: int
    var getNextCalled: bool
    var deletedCalled: bool
    /** The entry the cursor holds, which the last get_next returned. */
    var currentEntry: Option<KeyDataEntry>
    /** The position of the current leaf on the tree's leaf chain. */
    ghost var leafIndex: nat

    /** The tree is well formed and the current leaf is leaf `leafIndex` of its chain. */
    ghost predicate OnChain()
      reads this, btree, btree.headerPage
    {
      && btree.Valid()
      && LeafChain(btree.pages, btree.chain)
      && (currentLeaf.Some? ==> leafIndex < |btree.chain| && btree.chain[leafIndex] == currentLeaf.value)
    }

    /** As OnChain; a scan that has not started stands on the first leaf. */
    ghost predicate Valid()
      reads this, btree, btree.headerPage
    {
      && OnChain()
      && (!getNextCalled ==> currentLeaf.Some? && leafIndex == 0)
    }

    /** How many entries of the tree lie at or before the cursor. */
    ghost function Position(): nat
      reads this, btree
      requires currentLeaf.Some? && leafIndex < |btree.chain| && btree.chain[leafIndex] in btree.pages
    {
      Consumed(btree.pages, btree.chain, leafIndex, currentRecord)
    }

    /** The guard of get_next: the scan has a leaf and the tree is open. */
    predicate Active()
      reads this, btree
    {
      currentLeaf.Some? && btree.headerPage != null
    }

    /** delete_current acts only on a started scan that holds an entry. */
    predicate Deletable()
      reads this
    {
      currentLeaf.Some? && currentEntry.Some? && getNextCalled
    }

    /**
     * Whether a later get_next advances: always without a high bound; with
     * one, only when the low bound is missing or below it, and the entry
     * returned last has a key at most the high bound.
     */
    predicate Steps(last: Option<KeyDataEntry>)
    {
      highKey.None? || ((lowKey.None? || lowKey.value < highKey.value) && last.Some? && last.value.key <= highKey.value)
    }

    /** The scan as new_scan leaves it: on `leaf`, before its first get_next. */
    constructor (tree: BTreeFile, loKey: Option<Key>, hiKey: Option<Key>, keyType: int, maxKeysize: int,
                 leaf: PageId, ghost j: nat)
      ensures btree == tree && lowKey == loKey && highKey == hiKey
      ensures this.keyType == keyType && this.maxKeysize == maxKeysize
      ensures currentLeaf == Some(leaf) && currentRecord == 0 && currentEntry.None? && leafIndex == j
      ensures !getNextCalled && !deletedCalled
    {
      btree := tree;
      lowKey, highKey := loKey, hiKey;
      this.keyType, this.maxKeysize := keyType, maxKeysize;
      currentLeaf, currentRecord, currentEntry := Some(leaf), 0, None;
      leafIndex := j;
      getNextCalled, deletedCalled := false, false;
    }

    /** keysize: the maximum key length copied from the header when the scan was made. */
    function KeySize(): int
    {
      maxKeysize
    }

    /**
     * advanceEntry: the cursor takes one step along the chain, as Advance
     * says (AdvanceStep says what the step is in terms of the tree's
     * entries).
     */
    method AdvanceEntry()
      requires OnChain() && currentLeaf.Some?
      modifies this
      ensures OnChain()
      ensures getNextCalled == old(getNextCalled) && deletedCalled == old(deletedCalled)
      ensures (currentLeaf, currentRecord, currentEntry) == Advance(btree.pages, old(currentLeaf).value, old(currentRecord))
      ensures currentLeaf.Some? ==> leafIndex == NextIndex(btree.pages, btree.chain, old(leafIndex), old(currentRecord))
    {
      AdvanceStep(btree.pages, btree.chain, leafIndex, currentRecord);
      ghost var j' := NextIndex(btree.pages, btree.chain, leafIndex, currentRecord);
      var leafPage := btree.pages[currentLeaf.value];
      var next := BTLeafPage.GetNext(leafPage, currentRecord);
      currentEntry, currentRecord := next.0, next.1;
      if currentEntry.None? {
        var nextPageId := leafPage.nextPage;
        if nextPageId == INVALID_PAGE {
          currentEntry, currentLeaf := None, None;
          return;
        }
        currentLeaf := Some(nextPageId);
        var first := BTLeafPage.GetFirst(btree.pages[nextPageId], currentRecord);
        currentEntry, currentRecord := first.0, first.1;
      }
      leafIndex := j';
    }

    /**
     * advanceEntry as the loops of get_next see it: the entry it yields is
     * the first one not yet passed, and it passes it; it yields nothing on
     * entering an empty leaf, and ends the scan once every entry is passed.
     */
    method AdvanceInOrder()
      requires OnChain() && currentLeaf.Some?
      modifies this
      ensures OnChain()
      ensures getNextCalled == old(getNextCalled) && deletedCalled == old(deletedCalled)
      ensures (currentLeaf, currentRecord, currentEntry) == Advance(btree.pages, old(currentLeaf).value, old(currentRecord))
      ensures currentEntry.Some? ==>
        && currentLeaf.Some? && old(Position()) < |btree.Contents()|
        && currentEntry.value == btree.Contents()[old(Position())] && Position() == old(Position()) + 1
      ensures currentLeaf.Some? && currentEntry.None? ==>
        Position() == old(Position()) == Offset(btree.pages, btree.chain, leafIndex) && btree.pages[currentLeaf.value].entries == []
      ensures currentLeaf.None? ==> old(Position()) == |btree.Contents()|
      ensures currentEntry.Some? && btree.InOrder() && 0 < old(Position()) ==>
        btree.Contents()[old(Position()) - 1].key < currentEntry.value.key
    {
      ghost var before := Position();
      AdvanceStep(btree.pages, btree.chain, leafIndex, currentRecord);
      AdvanceEntry();
      TreeInKeyOrder(btree, before);
    }

    /**
     * The loop of the first get_next with a low bound: advance until the
     * entry held has the low key. It ends on the first entry of the tree
     * with that key.
     */
    method SeekLowKey()
      requires OnChain() && currentLeaf.Some? && lowKey.Some?
      requires LowKeyReachable(btree.pages, btree.chain, lowKey.value)
      requires currentEntry.Some? && 0 < Position() <= FirstKeyIndex(btree.Contents(), lowKey.value).value + 1
      requires currentEntry.value == btree.Contents()[Position() - 1]
      modifies this
      ensures OnChain() && currentLeaf.Some? && currentEntry.Some?
      ensures getNextCalled == old(getNextCalled) && deletedCalled == old(deletedCalled)
      ensures 0 < Position() && FirstKeyIndex(btree.Contents(), lowKey.value) == Some(Position() - 1)
      ensures currentEntry.value == btree.Contents()[Position() - 1]
    {
      ghost var target := FirstKeyIndex(btree.Contents(), lowKey.value).value;
      while currentEntry.value.key != lowKey.value
        invariant OnChain() && currentLeaf.Some? && currentEntry.Some?
        invariant getNextCalled == old(getNextCalled) && deletedCalled == old(deletedCalled)
        invariant 0 < Position() <= target + 1
        invariant currentEntry.value == btree.Contents()[Position() - 1]
        decreases target + 1 - Position()
      {
        AdvanceInOrder();
      }
    }

    /** The first get_next: stand on the first entry, or on the first entry with the low key. */
    method FirstCall()
      requires Valid() && Active() && !getNextCalled
      requires lowKey.Some? ==> LowKeyReachable(btree.pages, btree.chain, lowKey.value)
      modifies this
      ensures Valid() && getNextCalled && deletedCalled == old(deletedCalled)
      ensures lowKey.None? ==>
        && (currentEntry.None? <==> btree.pages[btree.chain[0]].entries == [])
        && (currentEntry.None? ==> currentLeaf.None?)
        && (currentEntry.Some? ==> currentLeaf.Some? && Position() == 1 && currentEntry.value == btree.Contents()[0])
      ensures lowKey.Some? ==>
        && currentLeaf.Some? && currentEntry.Some? && 0 < Position()
        && FirstKeyIndex(btree.Contents(), lowKey.value) == Some(Position() - 1)
        && currentEntry.value == btree.Contents()[Position() - 1]
    {
      var first := BTLeafPage.GetFirst(btree.pages[currentLeaf.value], currentRecord);
      currentEntry, currentRecord := first.0, first.1;
      assert btree.chain[..0] == [];
      if currentEntry.Some? {
        ChainEntriesAt(btree.pages, btree.chain, 0, 0);
      }
      if lowKey.Some? {
        assert Offset(btree.pages, btree.chain, 0) == 0;
        SeekLowKey();
      }
      if currentEntry.None? {
        currentLeaf := None;
      }
      getNextCalled := true;
    }

    /**
     * get_next. On a finished scan or a closed tree: nothing, and the
     * cursor's entry is cleared. First call: the first entry of the tree if
     * the first leaf holds one (otherwise nothing, and the scan is over), or,
     * with a low bound, the first entry with the low key. Right after
     * delete_current: the entry the cursor already holds. Otherwise, when
     * the bounds let it (see Steps), one step of advanceEntry and the entry
     * it yields; when they do not, nothing, and the scan stays as it is.
     */
    method GetNext() returns (r: Option<KeyDataEntry>)
      requires Valid()
      requires Active() && !getNextCalled && lowKey.Some? ==> LowKeyReachable(btree.pages, btree.chain, lowKey.value)
      requires Active() && getNextCalled && !deletedCalled && highKey.Some? && (lowKey.None? || lowKey.value < highKey.value) ==>
        currentEntry.Some?
      modifies this
      ensures Valid()
      ensures !old(Active()) ==>
        && r.None? && currentEntry.None?
        && currentLeaf == old(currentLeaf) && currentRecord == old(currentRecord)
        && getNextCalled == old(getNextCalled) && deletedCalled == old(deletedCalled)
      ensures old(Active()) && !old(getNextCalled) ==> getNextCalled && r == currentEntry
      ensures old(Active()) && !old(getNextCalled) && lowKey.None? ==>
        && (r.None? <==> btree.pages[btree.chain[0]].entries == [])
        && (r.None? ==> currentLeaf.None?)
        && (r.Some? ==> currentLeaf.Some? && Position() == 1 && r.value == btree.Contents()[0])
      ensures old(Active()) && !old(getNextCalled) && lowKey.Some? ==>
        && currentLeaf.Some? && r.Some? && 0 < Position()
        && FirstKeyIndex(btree.Contents(), lowKey.value) == Some(Position() - 1)
        && r.value == btree.Contents()[Position() - 1]
      ensures old(Active()) && old(getNextCalled) && old(deletedCalled) ==>
        && r == currentEntry == old(currentEntry) && !deletedCalled
        && currentLeaf == old(currentLeaf) && currentRecord == old(currentRecord) && leafIndex == old(leafIndex)
      ensures old(Active()) && old(getNextCalled) && !old(deletedCalled) && Steps(old(currentEntry)) ==>
        && !deletedCalled && r == currentEntry
        && (currentLeaf, currentRecord, currentEntry) == Advance(btree.pages, old(currentLeaf).value, old(currentRecord))
        && (r.Some? ==> currentLeaf.Some? && old(Position()) < |btree.Contents()| && r.value == btree.Contents()[old(Position())] && Position() == old(Position()) + 1)
        && (currentLeaf.Some? && r.None? ==> Position() == old(Position()))
        && (currentLeaf.None? ==> old(Position()) == |btree.Contents()|)
        && (r.Some? && btree.InOrder() && 0 < old(Position()) ==> btree.Contents()[old(Position()) - 1].key < r.value.key)
      ensures old(Active()) && old(getNextCalled) && !old(deletedCalled) && !Steps(old(currentEntry)) ==>
        r.None? && unchanged(this)
    {
      if currentLeaf.Some? && btree.headerPage != null {
        if !getNextCalled {
          FirstCall();
        } else if !deletedCalled {
          if highKey.None? {
            AdvanceInOrder();
          } else if lowKey.None? || lowKey.value < highKey.value {
            if highKey.value >= currentEntry.value.key {
              AdvanceInOrder();
            } else {
              return None;
            }
          } else {
            return None;
          }
        } else {
          deletedCalled := false;
        }
      } else {
        currentEntry := None;
      }
      r := currentEntry;
    }

    /** The delete delete_current hands to the tree: Delete(key, rid), which leaves the cursor as it is. */
    method DeleteFromTree(key: Key, rid: Rid) returns (ghost deleted: bool, ghost removed: KeyDataEntry)
      requires OnChain()
      modifies btree
      ensures OnChain()
      ensures btree.headerPage == old(btree.headerPage) && btree.chain == old(btree.chain)
      ensures !deleted ==> btree.pages == old(btree.pages)
      ensures deleted ==> removed in old(btree.Contents()) && multiset(old(btree.Contents())) == multiset(btree.Contents()) + multiset{removed}
      ensures btree.level == old(btree.level)
      ensures btree.headerPage != null && old(btree.pages)[btree.headerPage.GetRootId()].nodeType == IndexNode ==>
        var leafId := LeafFor(old(btree.pages), btree.level, btree.headerPage.GetRootId(), key);
        && leafId in old(btree.pages)
        && (var leaf := old(btree.pages)[leafId];
            && (deleted <==> FirstKeyIndex(leaf.entries, key).Some?)
            && (deleted ==>
                  && removed.key == key
                  && btree.pages == old(btree.pages)[leafId := leaf.(entries := RemoveAt(leaf.entries, FirstKeyIndex(leaf.entries, key).value))]))
      ensures old(btree.InOrder()) ==> btree.InOrder()
      ensures old(btree.InOrder()) && old(btree.pages)[btree.headerPage.GetRootId()].nodeType == IndexNode ==>
        (deleted <==> !old(btree.KeyNew(key))) && btree.KeyNew(key)
    {
      deleted, removed := btree.Delete(key, rid);
      TreeLeafChain(btree.pages, btree.level, btree.chain, btree.leafCapacity, btree.indexCapacity, btree.nextFree);
    }

    /**
     * delete_current as written: capture the entry in the current slot,
     * advance, then delete the captured pair from the tree and flag the
     * delete. The cursor is where Advance takes it on the tree as it was
     * before the delete (see AsWrittenDeleteSkips).
     */
    method DeleteCurrentAsWritten() returns (ghost deleted: bool, ghost removed: KeyDataEntry)
      requires Valid()
      requires Deletable() ==> currentRecord < |btree.pages[currentLeaf.value].entries|
      modifies this, btree
      ensures Valid()
      ensures !old(Deletable()) ==> unchanged(this) && unchanged(btree) && !deleted
      ensures btree.headerPage == old(btree.headerPage) && btree.chain == old(btree.chain)
      ensures old(Deletable()) ==>
        && deletedCalled && getNextCalled
        && old(leafIndex) < |btree.chain| && btree.chain[old(leafIndex)] == old(currentLeaf).value
        && (currentLeaf, currentRecord, currentEntry) == Advance(old(btree.pages), old(currentLeaf).value, old(currentRecord))
      ensures !deleted ==> btree.pages == old(btree.pages)
      ensures deleted ==> removed in old(btree.Contents()) && multiset(old(btree.Contents())) == multiset(btree.Contents()) + multiset{removed}
      ensures old(Deletable()) && deleted && btree.headerPage != null && old(btree.pages)[btree.headerPage.GetRootId()].nodeType == IndexNode ==>
        removed.key == old(btree.pages[currentLeaf.value].entries[currentRecord].key)
      ensures old(Deletable()) && old(btree.InOrder()) && old(btree.pages)[btree.headerPage.GetRootId()].nodeType == IndexNode ==>
        deleted && btree.pages == RemoveSlot(old(btree.pages), old(currentLeaf).value, old(currentRecord))
    {
      deleted, removed := false, KeyDataEntry(0, LeafData(Rid(0, 0)));
      if currentLeaf.None? {
        return;
      }
      if currentEntry.None? || !getNextCalled {
        return;
      }
      var temp := BTLeafPage.GetCurrent(btree.pages[currentLeaf.value], currentRecord);
      SearchFindsCursor(btree, leafIndex, currentRecord);
      AdvanceEntry();
      deleted, removed := DeleteFromTree(temp.key, temp.data.rid);
      deletedCalled := true;
    }

    /**
     * delete_current, corrected: capture the entry in the current slot,
     * delete the captured pair from the tree, then read the current slot
     * again, which now holds the entry that followed (see
     * RepositionKeepsPlace), and flag the delete.
     */
    method DeleteCurrent() returns (ghost deleted: bool, ghost removed: KeyDataEntry)
      requires Valid()
      requires Deletable() ==> currentRecord < |btree.pages[currentLeaf.value].entries|
      modifies this, btree
      ensures Valid()
      ensures !old(Deletable()) ==> unchanged(this) && unchanged(btree) && !deleted
      ensures btree.headerPage == old(btree.headerPage) && btree.chain == old(btree.chain)
      ensures old(Deletable()) ==>
        && deletedCalled && getNextCalled
        && old(leafIndex) < |btree.chain| && btree.chain[old(leafIndex)] == old(currentLeaf).value
        && (currentLeaf, currentRecord, currentEntry) == Reposition(btree.pages, old(currentLeaf).value, old(currentRecord))
      ensures !deleted ==> btree.pages == old(btree.pages)
      ensures deleted ==> removed in old(btree.Contents()) && multiset(old(btree.Contents())) == multiset(btree.Contents()) + multiset{removed}
      ensures old(Deletable()) && deleted && btree.headerPage != null && old(btree.pages)[btree.headerPage.GetRootId()].nodeType == IndexNode ==>
        removed.key == old(btree.pages[currentLeaf.value].entries[currentRecord].key)
      ensures old(Deletable()) && old(btree.InOrder()) && old(btree.pages)[btree.headerPage.GetRootId()].nodeType == IndexNode ==>
        deleted && btree.pages == RemoveSlot(old(btree.pages), old(currentLeaf).value, old(currentRecord))
    {
      deleted, removed := false, KeyDataEntry(0, LeafData(Rid(0, 0)));
      if currentLeaf.None? {
        return;
      }
      if currentEntry.None? || !getNextCalled {
        return;
      }
      var temp := BTLeafPage.GetCurrent(btree.pages[currentLeaf.value], currentRecord);
      SearchFindsCursor(btree, leafIndex, currentRecord);
      deleted, removed := DeleteFromTree(temp.key, temp.data.rid);
      var leafPage := btree.pages[currentLeaf.value];
      if currentRecord < |leafPage.entries| {
        currentEntry := Some(BTLeafPage.GetCurrent(leafPage, currentRecord));
      } else {
        AdvanceEntry();
      }
      deletedCalled := true;
    }
  }

  /**
   * new_scan(lo_key, hi_key): on an open tree, a scan with the given bounds,
   * the header's key type and maximum key length, standing on the leaf
   * reached from the root by left links only, which is the first leaf of
   * the chain; on a closed tree, none.
   */
  method NewScan(tree: BTreeFile, loKey: Option<Key>, hiKey: Option<Key>) returns (scanner: BTFileScan?)
    requires tree.Valid()
    ensures scanner == null <==> tree.headerPage == null
    ensures scanner != null ==>
      && fresh(scanner) && scanner.Valid() && scanner.btree == tree
      && scanner.lowKey == loKey && scanner.highKey == hiKey
      && scanner.keyType == tree.headerPage.GetKeyType()
      && scanner.KeySize() == tree.headerPage.GetMaxKeyFieldLength()
      && scanner.currentLeaf == Some(tree.chain[0])
      && !scanner.getNextCalled && !scanner.deletedCalled
  {
    scanner := null;
    if tree.headerPage != null {
      var currentPageId := tree.headerPage.GetRootId();
      var currentPage := tree.pages[currentPageId];
      while currentPage.nodeType == IndexNode
        invariant currentPageId in tree.pages && currentPage == tree.pages[currentPageId]
        invariant LeftmostFrom(tree.pages, tree.level, currentPageId) == tree.chain[0]
        decreases tree.level[currentPageId]
      {
        assert LinksBelow(tree.pages, tree.level, currentPage, tree.level[currentPageId]);
        currentPageId := GetLeftLink(currentPage);
        currentPage := tree.pages[currentPageId];
      }
      TreeLeafChain(tree.pages, tree.level, tree.chain, tree.leafCapacity, tree.indexCapacity, tree.nextFree);
      scanner := new BTFileScan(tree, loKey, hiKey, tree.headerPage.GetKeyType(),
                                tree.headerPage.GetMaxKeyFieldLength(), currentPageId, 0);
    }
  }
}
