# B+-tree index: a Dafny model

This project models the B+-tree index of a small teaching database. The
index is a file of pages:

- a header page names the root page, the key domain and the maximum key
  length;
- index pages hold separator keys with child page ids, plus a left link for
  the keys below the first separator;
- leaf pages hold keys with the record locators of data records;
- the leaves are linked into a doubly linked chain by their sibling fields.

The model covers:

- the header page (`header_page.dfy`);
- the leaf and index views of a sorted page (`sorted_page.dfy`,
  `leaf_page.dfy`, `index_page.dfy`);
- the tree file: creation, insertion with leaf and index splits and root
  growth, search and delete (`split.dfy`, `btree_file.dfy`);
- the range scan with its `delete_current` (`scan.dfy`).

Pages are values: a `SortedPage` holds a node kind, its entries in slot
order and the two sibling fields. The page store is a `map<PageId,
SortedPage>` field of the class `BTree.BTreeFile`. That class, the header
page and the scan are classes whose methods update their fields, as in the
source. A slot number inside a page is the entry's position, because a
sorted page keeps its slot directory compact.

The tree carries a ghost description of itself:

- `level` gives the height of every page;
- `chain` lists the leaves in sibling order;
- `Contents()` is the concatenation of the leaf entries along the chain.

`BTreeInvariants.TreeInv` states what a tree keeps between operations:

- pages are sorted and within capacity;
- index pages link one level down;
- the chain lists every leaf once, linked both ways;
- the root's leftmost descent reaches the first leaf.

Every tree operation keeps this invariant. Insert adds exactly its entry to
`Contents()` (with the corrected leaf split of the first finding below),
delete removes exactly one entry, and a scan returns `Contents()` in chain
order up to the first empty leaf (see "Empty leaf" below).

Key order is a second ghost description, in `order.dfy`:

- `span` gives every page the range of keys it answers for: all keys for
  the root, and for the child in slot s of an index page the keys from the
  separator before that slot up to the separator after it;
- `up` gives every page but the root its parent;
- `BTreeOrder.Ordered` holds when every leaf keeps its keys strictly
  increasing inside its span, every index page hands its children the
  spans of their slots, and the spans of the leaves tile the key line
  along the chain. `BTree.BTreeFile.InOrder()` is `Ordered` under the root
  the header names.

On an ordered tree the entries along the chain strictly increase
(`BTreeOrder.ContentsStrictlySorted`), so a full scan returns them in key
order, up to the first empty leaf it steps into. The search reaches the one leaf whose span holds the key, and every
entry with that key is on that leaf. Insertion of a key the tree does not
hold yet, with all its splits and root growth, keeps the tree ordered, and
so does every delete. While a split travels upwards, `BTreeOrder.Pending`
describes the state in between: the store would be ordered if the parent
of the split page held the new separator.

The scan's Javadoc (`src/btree/BTFileScan.java:43-51`,
`src/btree/BTreeFile.java:662-668`) and the code disagree in five places.
The model follows the code in each:

- **Exact-match scan.** With equal bounds, `get_next` returns null on every
  call after the first (`src/btree/BTFileScan.java:101-103`). So a scan
  `(k, k)` returns only the first entry with key `k`, not every entry with
  that key.
- **Delete under an index root.** Delete looks only at the key. It removes
  the first entry with that key in the leaf the search reaches, and never
  compares the record locator (`src/btree/BTreeFile.java:627-645`).
- **Delete with a leaf root.** When the root is a leaf, delete removes the
  slot named by the locator's slot number, whatever its key
  (`src/btree/BTreeFile.java:649-653`).
- **High bound.** A later get_next compares the high key with the key of
  the entry it returned last, and only then advances
  (`src/btree/BTFileScan.java:94-99`). The first call checks no bound at all
  (`src/btree/BTFileScan.java:63-66`). So over the keys 10, 20, 30, 40, 50 a
  scan with no low key and high key 45 returns 50 as well, and one with high
  key 5 returns 10. `BTFileScan.BTFileScan.Steps` states this test.
- **Empty leaf.** Delete never merges or frees pages, so a leaf can be
  empty. The Javadoc says null means the scan is done
  (`src/btree/BTFileScan.java:50`), but get_next also returns null when it
  steps into an empty leaf, though later leaves may hold entries. If the
  first leaf is empty, the first call ends the scan outright
  (`src/btree/BTFileScan.java:63-66`, `81`); later, advanceEntry enters an
  empty leaf and hands back null (`src/btree/BTFileScan.java:145`).
  `BTFileScan.BTFileScan.FirstCall` and `BTFileScan.AdvanceStep` state both.

## Model

| member | source | states |
|---|---|---|
| BTreeHeaderPage.ShortCastKeepsShorts | src/btree/BTreeHeaderPage.java:37-45 | the `(short)` conversion of get_keyType returns a value unchanged exactly when it lies in the 16-bit signed range |
| BTreeHeaderPage.BTreeHeaderPage.constructor | src/btree/BTreeFile.java:112-113 | the header page as `new BTreeHeaderPage()` and `init` leave it: both sibling fields invalid, an empty slot 1, and cached copies zero |
| BTreeHeaderPage.BTreeHeaderPage.GettersReadThePage | src/btree/BTreeHeaderPage.java:27-55 | get_rootId, get_keyType and getMaxKeyFieldLength read the page fields only: two headers whose page fields agree answer alike whatever their cached copies hold |
| BTreeHeaderPage.BTreeHeaderPage.GetKeyType | src/btree/BTreeHeaderPage.java:37-45 | the key type read back is always a short, and it is the stored field itself whenever that field is a short |
| BTreeHeaderPage.BTreeHeaderPage.SetRootPageId | src/btree/BTreeHeaderPage.java:57-64 | get_rootId returns the new id afterwards; the key type and the maximum key length read back as before |
| BTreeHeaderPage.BTreeHeaderPage.SetKeyType | src/btree/BTreeHeaderPage.java:66-73 | get_keyType returns the short conversion of the new type; the root id and the maximum key length are untouched |
| BTreeHeaderPage.BTreeHeaderPage.SetMaxKeyFieldLength | src/btree/BTreeHeaderPage.java:75-85 | getMaxKeyFieldLength returns the new length; the root id and the key type are untouched |
| BTreeHeaderPage.BTreeHeaderPage.LoadData | src/btree/BTreeHeaderPage.java:88-96 | the cached fields equal what the getters read from the page; the cached key type is the raw field, without the short conversion |
| BTreeHeaderPage.BTreeHeaderPage.InsertAll | src/btree/BTreeHeaderPage.java:98-103 | the three getters return the root, the short conversion of the key type and the key size that were passed in |
| BTLeafPage.InsertRecord | src/btree/BTLeafPage.java:54-66 | fails exactly on a full page, leaving it unchanged; otherwise the pair is inserted after every entry with a key not above it and before every greater one, the page stays sorted, and its multiset gains exactly the pair |
| BTSortedPage.WalkVisitsInOrder | src/btree/BTLeafPage.java:75-113 | getFirst followed by k calls of getNext returns entry k in slot k, and none once the entries are exhausted |
| BTLeafPage.GetFirst | src/btree/BTLeafPage.java:75-90 | the first entry, a leaf entry, with the locator moved to slot 0; none with the locator unchanged on an empty page |
| BTLeafPage.GetNext | src/btree/BTLeafPage.java:98-113 | the leaf entry in the slot after the locator, moving to it; none with the locator unchanged when no slot follows |
| BTLeafPage.CurrentAfterStep | src/btree/BTLeafPage.java:115-135 | getCurrent is getNext (or getFirst) without advancing: on the locator either call hands back, getCurrent returns the entry that call returned |
| BTLeafPage.DelEntry | src/btree/BTLeafPage.java:142-169 | removes the first entry whose key equals the given key, whatever its locator; reports false and leaves the page unchanged exactly when no entry has that key |
| BTIndexPage.InsertKey | src/btree/BTIndexPage.java:48-60 | fails exactly on a full page, leaving it unchanged; otherwise the page stays sorted and gains exactly the separator, after every key not above it |
| BTIndexPage.GetPageNoByKey | src/btree/BTIndexPage.java:62-104 | below the first separator, the left link; otherwise the child of a separator at most the key whose successor is absent or greater |
| BTIndexPage.GetPageNoByKeyIsALink | src/btree/BTIndexPage.java:62-104 | the page returned is always the left link or a child stored in the page |
| BTIndexPage.GetPageNoByKeyPicksLastSeparator | src/btree/BTIndexPage.java:62-104 | on a sorted page the child returned is that of the last separator at most the key, so every later equal separator is stepped past |
| BTIndexPage.GetFirst | src/btree/BTIndexPage.java:113-127 | the first entry and slot 0, or none with the locator unchanged on an empty page |
| BTIndexPage.GetNext | src/btree/BTIndexPage.java:135-150 | the entry in the slot after the locator, moving to it, or none with the locator unchanged at the end |
| BTIndexPage.SetLeftLink | src/btree/BTIndexPage.java:173-179 | getLeftLink returns the new link afterwards; the entries, kind and next field are unchanged |
| BTIndexPage.LeftLinkRoundTrip | src/btree/BTIndexPage.java:152-179 | getLeftLink reads back what setLeftLink stored, and storing the link a page already has leaves the page unchanged |
| BTree.BTreeFile.constructor | src/btree/BTreeFile.java:106-123 | a new file: the header names a fresh empty leaf as root and reads back the key type (short conversion) and key size; the tree is well formed, in order and holds no entry |
| BTree.EmptyTreeOk | src/btree/BTreeFile.java:106-123 | a single empty leaf as root is a well-formed tree, ordered with the root answering for every key, and holds no entry |
| BTree.CheckKey | src/btree/BTreeFile.java:187-201 | insert refuses a key longer than the header's maximum, then any key whose class does not match the header's key type; it accepts exactly a short-enough integer key on an integer tree or string key on a string tree |
| BTree.BTreeFile.Insert | src/btree/BTreeFile.java:183-222 | on a closed tree or a refused key nothing changes; otherwise the tree stays well formed and its entries gain exactly (key, rid); key type and maximum key length are unchanged; an ordered tree that does not hold the key yet stays ordered |
| BTree.BTreeFile.SplittedInsertion | src/btree/BTreeFile.java:223-377 | the entry joins the tree's entries, the tree stays well formed and pages above the target stay untouched; on an ordered tree with a new key the target answers for, either the tree is ordered again or the separator handed back is pending for the target's parent, and no page at or above the target's height gets a new parent |
| BTree.BTreeFile.LeafInsertion | src/btree/BTreeFile.java:308-372 | below capacity only the leaf changes and gains exactly the entry; a full leaf splits as LeafSplitInsertion says; on an ordered tree with a new key of the leaf's span, the tree is ordered again or the copied-up separator is pending for the parent |
| BTree.BTreeFile.LeafSplitInsertion | src/btree/BTreeFile.java:315-369 | a full leaf splits: the new leaf under the next free id follows it, the two halves are non-empty and hold the leaf's entries and the new one, and the separator is the new leaf's first key with its id; it goes up for a non-root leaf, and a split root is replaced by a new index root holding just that separator |
| BTree.BTreeFile.SplitLeafPage | src/btree/BTreeFile.java:315-348 | the store becomes the split leaf and a new leaf under the next free id, linked right after it on the chain; the halves are sorted, non-empty and hold the old entries and the new one; the copied-up entry is the new leaf's first key with its id; the key span is cut at that key, and on an ordered tree the separator is pending for the parent |
| BTree.LeafSplitStep | src/btree/BTreeFile.java:315-348 | a leaf replaced by two linked halves keeps the tree well formed and its root; the new leaf sits on the chain right after the old one; the halves trade places with the old leaf's entries plus the new one; the copy-up entry names the new leaf by its first key |
| BTree.BTreeFile.IndexInsertion | src/btree/BTreeFile.java:229-306 | a separator from below goes into the index page; below capacity only that page changes, gaining exactly the separator, in the slot right after the split child when it was pending; the tree's entries do not change; a pending separator leaves the tree ordered, or pending one level up after a split |
| BTree.BTreeFile.IndexSplitInsertion | src/btree/BTreeFile.java:246-302 | a full index page splits around a pushed-up key bounding both halves; the halves hold the old entries and the separator except the pushed-up one; the pushed-up entry names the new page and goes up, or a split root is replaced by a new root holding just it; a pending separator leaves the tree ordered or pending one level up |
| BTree.BTreeFile.SplitIndexPage | src/btree/BTreeFile.java:246-281 | the page keeps its id, height and left link, the new page under the next free id is on the same level, no other page changes, every key left is at most the pushed-up key and every key right at least it, nothing is lost, and the pushed-up entry names the new page; a pending separator stays pending one level up |
| BTree.IndexSplitStep | src/btree/BTreeFile.java:246-281 | an index split seen from the tree's shape: well formed, same leaf entries, pages above untouched, and the pushed-up entry names a page one level below the split page's parent |
| BTree.BTreeFile.GrowRoot | src/btree/BTreeFile.java:284-300 | a new index page holding only the separator, with the old root as left link, becomes the root named by the header; no other page, and no entry, changes; a separator pending for a split root leaves the tree ordered under the new root |
| BTree.BTreeFile.AddRootPage | src/btree/BTreeFile.java:286-293 | the new root is stored under the next free id one level above the old root, and the tree stays well formed with its leftmost descent to the first leaf |
| BTree.NewRootPage | src/btree/BTreeFile.java:286-293 | the new root page is an index page holding exactly the separator, with the old root as its left link |
| BTree.InsertIntoLeaf | src/btree/BTreeFile.java:315 | insertRecord on a well-formed leaf fails exactly when it is full, and otherwise keeps it well formed with the same sibling fields |
| BTree.InsertIntoIndexPage | src/btree/BTreeFile.java:246 | insertKey on a well-formed index page fails exactly when it is full, and otherwise keeps it well formed and linking one level down |
| BTreeSplit.SplitLeaf | src/btree/BTreeFile.java:418-456 | corrected splitLeaf: the old leaf keeps exactly the lower half, the new leaf holds exactly the upper half, and together they are the old entries in order |
| BTreeSplit.SplitLeafAsWritten | src/btree/BTreeFile.java:418-456 | splitLeaf as written: the new leaf holds the upper half, and the old leaf is what the delEntry-by-key loop leaves |
| BTreeSplit.DeleteUpperAsWritten | src/btree/BTreeFile.java:445-450 | the as-written delete loop removes, each turn, the first entry with the key of the last entry |
| BTreeSplit.SplitLeafAsWrittenLosesDuplicate | src/btree/BTreeFile.java:445-450 | with two entries of equal key the as-written split drops the first and leaves the second in both halves |
| BTreeSplit.DropLastByKeyDistinct | src/btree/BTreeFile.java:445-450 | with distinct keys the as-written loop removes exactly the last slots, as intended |
| BTreeSplit.DropLastByKeyShrinks | src/btree/BTreeFile.java:445-450 | the as-written loop only ever removes entries |
| BTreeSplit.CopyUpperLeafHalf | src/btree/BTreeFile.java:429-442 | the copy loops of splitLeaf fill the new leaf with exactly the entries from slot n/2 on, in order |
| BTreeSplit.CopyUpperIndexHalf | src/btree/BTreeFile.java:391-403 | the copy loops of splitIndex fill the new page with exactly the entries from slot n/2 on, in order |
| BTreeSplit.PlaceInLeafSplit | src/btree/BTreeFile.java:334-348 | after a leaf split the entry goes into the half findLocation picks; the halves stay sorted and ordered, hold the old entries and the new one, and the copied-up key is the right half's first key |
| BTreeSplit.SplitIndex | src/btree/BTreeFile.java:380-416 | the old page keeps exactly the lower half, the new page holds exactly the upper half, and together they are the old entries in order |
| BTreeSplit.GetLastEntry | src/btree/BTreeFile.java:458-469 | the last entry of the leaf, or none for an empty leaf |
| BTreeSplit.GetLastRecord | src/btree/BTreeFile.java:471-490 | the slot of the last record |
| BTreeSplit.FindLocation | src/btree/BTreeFile.java:494-566 | the placement decided from the last key on the left and the first key on the right |
| BTreeSplit.LocateLeafOrdered | src/btree/BTreeFile.java:549-560 | for ordered leaf halves the entry goes left exactly when its key is below the first key on the right, and otherwise right; it always goes somewhere |
| BTreeSplit.LocateIndexOrdered | src/btree/BTreeFile.java:516-533 | for ordered index halves the separator goes left exactly below the left key, right exactly above the right key, and up exactly in between |
| BTreeSplit.SplitLeafAndPlace | src/btree/BTreeFile.java:315-348 | after a leaf split the halves are sorted leaves within capacity, linked old, new, old successor; together they hold the old entries and the new one; the copied-up key is the new leaf's first key and separates the halves |
| BTreeSplit.SplitIndexAndPlace | src/btree/BTreeFile.java:246-281 | after an index split the halves are sorted and non-empty, the old page keeps its left link, the pushed-up entry names the new page and separates the halves, and no separator or child is lost |
| BTreeSplit.PlaceInIndexSplit | src/btree/BTreeFile.java:253-281 | the three push-up cases: the separator goes up itself, or replaces the first entry on the right or the last on the left, the replaced entry going up with its child as the right half's left link |
| BTreeSplit.ReplaceFirstOfRight | src/btree/BTreeFile.java:260-268 | the right case of the push-up rule keeps both halves sorted, bounded by the pushed-up key and complete |
| BTreeSplit.ReplaceLastOfLeft | src/btree/BTreeFile.java:269-281 | the left case of the push-up rule keeps both halves sorted, bounded by the pushed-up key and complete |
| BTree.BTreeFile.Search | src/btree/BTreeFile.java:570-594 | from an index root the descent by getPageNoByKey ends on a leaf of the tree; on the ordered tree that leaf answers for the key and holds every entry of the tree with it |
| BTree.LeafForIsLeaf | src/btree/BTreeFile.java:583-589 | in a well-formed tree the descent from any page ends on a leaf of the chain |
| BTree.OrderedChild | src/btree/BTreeFile.java:583-589 | on the ordered tree, the child getPageNoByKey picks for a key of an index page's span is the child of the slot that answers for the key, and has the page as parent |
| BTree.LeafForInSpan | src/btree/BTreeFile.java:575-589 | on the ordered tree, the descent from a page that answers for a key ends on a leaf that answers for it |
| BTree.SearchFindsAll | src/btree/BTreeFile.java:570-594 | on the ordered tree, the leaf the search from the root reaches answers for the key and holds every entry of the tree with that key |
| BTree.SearchFindsSlot | src/btree/BTreeFile.java:617-645 | on the ordered tree, the search for the key held in a slot of a chain leaf reaches that leaf, and that slot is the first there with the key, so delete by key removes exactly it |
| BTree.SearchDecidesKey | src/btree/BTreeFile.java:617-645 | on the ordered tree, the leaf the search reaches holds an entry with the key exactly when the tree does |
| BTree.FindEntry | src/btree/BTreeFile.java:624-645 | the loop of Delete finds the first entry of the leaf with the key, and none exactly when no entry has it |
| BTree.BTreeFile.Delete | src/btree/BTreeFile.java:605-660 | the tree stays well formed; under an index root the first entry with the key in the searched leaf is removed, and nothing when there is none; under a leaf root the slot of rid is removed when it exists; the entries lose exactly the removed one; an ordered tree stays ordered, and under an index root it reports a delete exactly when it held the key and holds it no more afterwards |
| BTree.BTreeFile.DeleteThroughIndex | src/btree/BTreeFile.java:617-648 | delete below an index root removes the first entry with the key in the leaf the search reaches, exactly when there is one; on the ordered tree that is exactly when the tree holds the key, and afterwards it does not |
| BTree.BTreeFile.RemoveFromLeaf | src/btree/BTreeFile.java:630-633 | delEntry on the searched leaf removes the first entry with the key, which is the entry found, and exactly that entry leaves the tree; the ordered tree stays ordered and no longer holds the key |
| BTree.BTreeFile.DeleteFromLeafRoot | src/btree/BTreeFile.java:649-653 | delete with a leaf root removes slot rid.slotNo exactly when it exists, whatever its key; the ordered tree stays ordered and no longer holds the removed key |
| BTree.LeafRemovalKeepsInvariant | src/btree/BTreeFile.java:632 | removing one slot of a leaf keeps the tree well formed and its root, and takes exactly that entry out of the tree's entries |
| BTree.LeafRemoveOrderedIf | src/btree/BTreeFile.java:632 | removing one entry of a leaf of the ordered tree keeps it ordered and leaves no entry with the removed key |
| BTree.LeafInsertStep | src/btree/BTreeFile.java:315 | insertRecord into a leaf below capacity keeps the tree well formed with the same root, changes no index page, adds exactly the entry, and keeps the ordered tree ordered for a new key of the leaf's span |
| BTreeOrder.ContentsStrictlySorted | src/btree/BTFileScan.java:43-51 | the entries of an ordered tree strictly increase along the leaf chain: no key twice, in key order |
| BTreeOrder.LeavesDisjoint | src/btree/BTreeFile.java:570-594 | two different leaves of an ordered tree share no entry |
| BTreeOrder.KeyOnlyInItsLeaf | src/btree/BTreeFile.java:570-594 | on an ordered tree every entry with a key lies on the leaf whose span holds the key |
| BTreeOrder.ChildSlot | src/btree/BTIndexPage.java:62-104 | getPageNoByKey on a sorted index page, for a key of the page's span, picks the child of the slot whose span holds the key |
| BTreeOrder.SlotsIncrease | src/btree/BTIndexPage.java:62-104 | an index page whose slots all answer for non-empty spans has strictly increasing separators inside its own span, and no two slots answer for the same span |
| BTreeOrder.LeafInsertKeepsOrder | src/btree/BTreeFile.java:315 | a leaf taking a key of its span that it does not hold yet keeps the tree ordered |
| BTreeOrder.LeafRemoveKeepsOrder | src/btree/BTreeFile.java:632 | removing any slot of a leaf keeps the tree ordered |
| BTreeOrder.RemovedKeyGone | src/btree/BTreeFile.java:632 | taking one entry out of strictly increasing entries leaves none with its key |
| BTreeOrder.LeafHalvesOrdered | src/btree/BTreeFile.java:318-348 | after a leaf split the lower half holds exactly the keys below the new leaf's first key and the upper half the rest of the span, both strictly increasing |
| BTreeOrder.SplicedChainSpans | src/btree/BTreeFile.java:318-332 | cutting a leaf's span at the new leaf's first key and linking the new leaf right after it keeps the leaf spans tiling the key line |
| BTreeOrder.LeafSplitPending | src/btree/BTreeFile.java:315-348 | a leaf split of the ordered tree leaves the copied-up separator pending: with it in the parent's slot after the leaf, or under a new root, the tree would be ordered |
| BTreeOrder.LeafSplitParentOk | src/btree/BTreeFile.java:246 | the parent of a split leaf, with the separator added right after the leaf's slot, answers correctly for its children again |
| BTreeOrder.AddSlotOk | src/btree/BTreeFile.java:246 | adding a separator after slot s of an index page gives the old child the keys below it and the new page the keys from it, other children unchanged |
| BTreeOrder.ResolvePending | src/btree/BTreeFile.java:246 | insertKey of the pending separator into the parent of the split page puts it right after that page's slot, and the tree is ordered again |
| BTreeOrder.GrowRootOrdered | src/btree/BTreeFile.java:284-300 | after the root split, a new root holding only the separator with the old root as left link orders the tree and answers for every key |
| BTreeOrder.IndexSplitPending | src/btree/BTreeFile.java:246-281 | an index split of the parent holding the pending separator leaves the pushed-up entry pending one level up: the lower half answers for the keys below the pushed-up key, the new page for the rest, and the upper half's children move under it |
| BTreeOrder.IndexSplitParentOk | src/btree/BTreeFile.java:246-281 | the parent of a split index page, with the pushed-up entry added after the page's slot, answers correctly for its children again |
| BTreeOrder.IndexHalves | src/btree/BTreeFile.java:246-281 | halves bounded above and below by the pushed-up key that together with it hold a strictly increasing page's entries are exactly its prefix, the pushed-up entry, and the rest |
| BTreeInvariants.GrowRootKeepsInvariant | src/btree/BTreeFile.java:284-300 | growing a new root over the old root keeps the tree well formed with the same leaves and entries |
| BTreeInvariants.LeafSplitKeepsInvariant | src/btree/BTreeFile.java:318-332 | linking a new leaf right after a split leaf keeps the chain well formed and trades the old leaf's entries for the halves' |
| BTFileScan.NewScan | src/btree/BTreeFile.java:673-710 | on an open tree, a fresh scan with the given bounds, the header's key type, and the header's maximum key length as what keysize returns, standing before its first get_next on the leaf reached by left links, which is the first leaf of the chain; on a closed tree, none |
| BTFileScan.TreeLeafChain | src/btree/BTFileScan.java:127-146 | every leaf of a well-formed tree can be stepped from, and its next link is a leaf of the tree or none |
| BTFileScan.SearchFindsCursor | src/btree/BTFileScan.java:163-167 | on the ordered tree, the delete of delete_current, given the key of the cursor's slot, searches down to the cursor's leaf and finds that very slot first |
| BTFileScan.ScanStepInKeyOrder | src/btree/BTFileScan.java:43-51 | on an ordered tree each entry of the leaf chain has a key strictly above the one before it, so the scan returns keys in increasing order |
| BTFileScan.BTFileScan.constructor | src/btree/BTFileScan.java:31-41 | a scan on the given leaf at slot 0, holding no entry, before its first get_next and with no delete pending |
| BTFileScan.AdvanceStep | src/btree/BTFileScan.java:120-153 | one advanceEntry step on the chain yields exactly the tree entry after those already passed, or moves to an empty leaf with nothing passed, or ends the scan once every entry is passed |
| BTFileScan.BTFileScan.AdvanceEntry | src/btree/BTFileScan.java:120-153 | getNext in the leaf; at the end of the leaf, getFirst of the next leaf, or the scan ends when there is none; the cursor stays on the chain |
| BTFileScan.BTFileScan.AdvanceInOrder | src/btree/BTFileScan.java:120-153 | advanceEntry yields the first tree entry not yet passed and passes it, or yields nothing on entering an empty leaf, or ends the scan after the last entry |
| BTFileScan.BTFileScan.SeekLowKey | src/btree/BTFileScan.java:70-77 | the low-key loop stops on the first entry of the tree whose key is the low key |
| BTFileScan.BTFileScan.FirstCall | src/btree/BTFileScan.java:60-84 | the first get_next holds the first entry of the tree, or ends the scan when the first leaf is empty; with a low bound it holds the first entry with the low key |
| BTFileScan.BTFileScan.GetNext | src/btree/BTFileScan.java:52-118 | on an ended scan or closed tree, nothing; the first call as FirstCall; right after a delete, the held entry again; when the bounds allow, the next entry of the tree in chain order, whose key on an ordered tree is strictly above the entry before it; at the high bound or after an exact match, nothing with the scan unchanged; or nothing on entering an empty leaf, and nothing at all when the first leaf is empty |
| BTFileScan.BTFileScan.DeleteFromTree | src/btree/BTFileScan.java:167 | the delete of delete_current is the tree's Delete: under an index root the first entry with the key in the leaf the search reaches is removed, exactly when there is one, and on an ordered tree exactly when the tree held the key; exactly one entry leaves, the leaf chain stays, the cursor still stands on it, and an ordered tree stays ordered |
| BTFileScan.BTFileScan.DeleteCurrentAsWritten | src/btree/BTFileScan.java:158-170 | delete_current as written: no-op before the first get_next or with no held entry; otherwise the cursor advances on the old tree and the held entry's key is deleted, removing exactly one entry; on an ordered tree under an index root that entry is the cursor's own slot (the store becomes RemoveSlot of it), the state AsWrittenDeleteSkips starts from |
| BTFileScan.AsWrittenDeleteSkips | src/btree/BTFileScan.java:158-170 | after the as-written delete in a leaf with two more entries, the cursor holds the entry that followed but has passed one entry too many, so the second follower is never returned |
| BTFileScan.BTFileScan.DeleteCurrent | src/btree/BTFileScan.java:158-170 | corrected delete_current: delete first, then re-read the current slot; the cursor is where Reposition puts it on the new tree; on an ordered tree under an index root the delete removes exactly the cursor's own slot (the store becomes RemoveSlot of it), so RepositionKeepsPlace applies |
| BTFileScan.RepositionKeepsPlace | src/btree/BTFileScan.java:158-170 | after the corrected delete the cursor holds the entry that followed the deleted one and has passed exactly the entries up to it, so the scan skips nothing |
| BTFileScan.RemoveSlotContents | src/btree/BTFileScan.java:167 | removing slot rec of leaf j takes exactly the tree entry at the leaf's offset plus rec out of the entries |

## Left out

- Buffer manager, pins and unpins, disk I/O: pages are values in a map, and aliasing between pinned views of the same page is not modelled.
- Opening an existing file (`BTreeFile(String)`), `close`, `destroyFile`, `DestroyBTreeFileScan` and `getHeaderPage`: they only manage the catalogue and pins.
- Exceptions and `printStackTrace`: an operation that throws in the source is either given the precondition that avoids the throw or modelled by its result.
- Keys are mathematical integers. Key classes, `BT.keyCompare` and byte encodings are not part of this model, and `insert` takes the key's class and encoded length as data.
- Page capacity is a number of entries per node kind, not bytes of free space.
- The header page's own page id and its node-type tag are not modelled.
- BTSortedPage.java and BT.java are not part of this model. Their insert, delete and iteration behaviour is written out in `sorted_page.dfy` as the leaf and index pages use it.
- BTLeafPage.GetCurrent: the source returns null for a null locator; the model requires a slot that exists.
- BTIndexPage.GetPageNoByKey: the source reads the first entry unconditionally; the model requires a non-empty page, which every index page of a well-formed tree is.
- BTreeSplit.GetLastRecord: the source dereferences the first locator; the model requires a non-empty page.
- BTFileScan.BTFileScan.GetNext: a first call with a low bound requires the low key to be present in the tree and every leaf up to its first occurrence to be non-empty (`LowKeyReachable`); otherwise the source runs off the end of the chain, or reads the first entry of an empty leaf, and dereferences null (`src/btree/BTFileScan.java:75`, `145`).
- BTFileScan.BTFileScan.FirstCall: with a low bound, requires `LowKeyReachable` for the same reason as GetNext.
- BTFileScan.BTFileScan.SeekLowKey: requires `LowKeyReachable`: the loop at `src/btree/BTFileScan.java:72-77` compares against a null entry once it steps into an empty leaf or past the last one.
- BTFileScan.BTFileScan.GetNext: with a high bound, a call after the first requires a held entry; the source dereferences null otherwise.
- BTFileScan.BTFileScan.DeleteCurrent: requires that the held slot still exists in the leaf, as it does unless the tree was changed outside the scan.
- BTFileScan.BTFileScan.DeleteCurrentAsWritten: requires that the held slot still exists in the leaf. A second delete_current right after a first breaks this: the first advanced the slot number and then the delete compacted the leaf, so on a leaf [1, 2] the slot number is 1 on a one-entry leaf, and the source reads that slot anyway (`src/btree/BTFileScan.java:165`). What that read returns depends on the page bytes, which this model does not have.
- Changes to the tree made outside a scan while the scan is open: a scan's `Valid()` then has to be re-established.
- BTree.BTreeFile.SplittedInsertion: the source returns its input entry after an exception; exceptions are not modelled.
- BTree.BTreeFile.Insert: uses the corrected leaf split (`BTreeSplit.SplitLeaf`, first row of Findings); with the split as written, inserting into a full leaf that holds a duplicate key loses an entry, so the source's insert does not always add exactly its entry.
- BTree.BTreeFile.SplittedInsertion: uses the corrected leaf split, as Insert does.
- BTree.BTreeFile.LeafInsertion: uses the corrected leaf split, as Insert does.
- BTree.BTreeFile.LeafSplitInsertion: uses the corrected leaf split, as Insert does.
- BTree.BTreeFile.SplitLeafPage: uses the corrected leaf split, as Insert does.
- BTree.BTreeFile.Insert: key order (`InOrder`) is proved kept only for a key the tree does not hold yet. With duplicate keys a key can sit on both sides of a separator, which the strict spans of `Ordered` do not describe; the multiset of entries and the shape invariant are proved for every insert.
- BTree.IndexSplitStep: states the shape of an index split only; the key bound of the pushed-up entry is stated by `SplitIndexPage` (every key of the lower half at most it, of the upper half at least it) and by `BTreeOrder.IndexSplitPending`, not by this lemma.

## Findings

| source | as written | input that shows it | evidently intended | confidence | as-written member | corrected member |
|---|---|---|---|---|---|---|
| src/btree/BTreeFile.java:445-450 | splitLeaf removes the upper half with `delEntry(getLastEntry(...))`, and delEntry removes the FIRST entry with that key | a full leaf of capacity 2 holding two entries with key 5: the old leaf keeps the second entry, which the new leaf also holds, and the first is lost | remove the last slot by position, as splitIndex does | high; not executed | BTreeSplit.SplitLeafAsWrittenLosesDuplicate | BTreeSplit.SplitLeaf |
| src/btree/BTFileScan.java:159-170 | delete_current advances the cursor first and deletes afterwards; the delete compacts the leaf's slots, so the cursor ends one slot too far | a leaf [1, 2, 3, 4] under an index root: get_next returns 1, delete_current, get_next returns 2, get_next returns 4, and 3 is never returned | delete first, then re-read the current slot, which now holds the follower | high; not executed | BTFileScan.AsWrittenDeleteSkips | BTFileScan.RepositionKeepsPlace |
