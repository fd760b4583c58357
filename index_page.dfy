/**
 * BTIndexPage: the index view of a sorted page. Every entry pairs a
 * separator key with a child page; the "previous" sibling field holds the
 * left link, the child for keys below the first separator.
 */
module BTIndexPage {
  import opened BT
  import opened BTSortedPage

  ghost predicate IsIndexPage(p: SortedPage)
  {
    p.nodeType == IndexNode && forall x :: x in p.entries ==> x.data.IndexData?
  }

  /**
   * insertKey(key, pageNo): stores the entry (key, pageNo) at its sorted
   * place and returns its slot, or returns none when the page is full.
   */
  function InsertKey(p: SortedPage, key: Key, pageNo: PageId, capacity: nat): (r: (SortedPage, Option<nat>))
    ensures r.1.None? <==> |p.entries| >= capacity
    ensures r.1.None? ==> r.0 == p
    ensures r.1.Some? ==>
      && r.1.value <= |p.entries|
      && r.0 == p.(entries := p.entries[..r.1.value] + [KeyDataEntry(key, IndexData(pageNo))] + p.entries[r.1.value..])
      && (forall j :: 0 <= j < r.1.value ==> p.entries[j].key <= key)
      && r.1.value < |r.0.entries| && r.0.entries[r.1.value] == KeyDataEntry(key, IndexData(pageNo))
      && multiset(r.0.entries) == multiset(p.entries) + multiset{KeyDataEntry(key, IndexData(pageNo))}
      && |r.0.entries| == |p.entries| + 1
    ensures r.1.Some? && Sorted(p.entries) ==> forall j :: r.1.value <= j < |p.entries| ==> key < p.entries[j].key
    ensures r.0.nodeType == p.nodeType && r.0.prevPage == p.prevPage && r.0.nextPage == p.nextPage
    ensures forall x :: x in r.0.entries ==> x in p.entries || x == KeyDataEntry(key, IndexData(pageNo))
    ensures Sorted(p.entries) ==> Sorted(r.0.entries)
    ensures IsIndexPage(p) ==> IsIndexPage(r.0)
  {
    InsertSorted(p, KeyDataEntry(key, IndexData(pageNo)), capacity)
  }

  /** getLeftLink: the left link, kept in the page's "previous" field. */
  function GetLeftLink(p: SortedPage): PageId
  {
    p.prevPage
  }

  /** setLeftLink(left): what getLeftLink returns afterwards; the entries are untouched. */
  function SetLeftLink(p: SortedPage, left: PageId): (r: SortedPage)
    ensures GetLeftLink(r) == left
    ensures r.entries == p.entries && r.nodeType == p.nodeType && r.nextPage == p.nextPage
  {
    p.(prevPage := left)
  }

  /**
   * The left link reads back what setLeftLink stored, and storing the link
   * a page already has leaves the page as it is.
   */
  lemma LeftLinkRoundTrip(p: SortedPage, left: PageId)
    ensures GetLeftLink(SetLeftLink(p, left)) == left
    ensures SetLeftLink(p, GetLeftLink(p)) == p
  {
  }

  /**
   * The cursor pair of getPageNoByKey: starting from entry j, step both
   * cursors forward until the next entry is absent or its key is strictly
   * greater than `key`.
   */
  function LastNotAbove(s: seq<KeyDataEntry>, key: Key, j: nat): (r: nat)
    requires j < |s|
    decreases |s| - j
    ensures j <= r < |s|
    ensures r + 1 == |s| || key < s[r + 1].key
    ensures forall m :: j < m <= r ==> s[m].key <= key
  {
    if j + 1 == |s| || key < s[j + 1].key then j else LastNotAbove(s, key, j + 1)
  }

  /**
   * getPageNoByKey(key): the left link when `key` is below the first
   * separator; otherwise the child of the entry at which the forward scan
   * stops, which is the first entry whose successor is absent or greater.
   * The first entry is read unconditionally, so the page must not be empty.
   */
  function GetPageNoByKey(p: SortedPage, key: Key): (r: PageId)
    requires IsIndexPage(p) && |p.entries| > 0
    ensures key < p.entries[0].key ==> r == GetLeftLink(p)
    ensures p.entries[0].key <= key ==>
      exists i ::
        && 0 <= i < |p.entries| && p.entries[i].data == IndexData(r)
        && p.entries[i].key <= key && (i + 1 == |p.entries| || key < p.entries[i + 1].key)
  {
    if key < p.entries[0].key then GetLeftLink(p)
    else
      var i := LastNotAbove(p.entries, key, 0);
      assert p.entries[i] in p.entries;
      p.entries[i].data.pageNo
  }

  /** The result of getPageNoByKey is always the left link or a child stored in the page. */
  lemma GetPageNoByKeyIsALink(p: SortedPage, key: Key)
    requires IsIndexPage(p) && |p.entries| > 0
    ensures var r := GetPageNoByKey(p, key);
      r == GetLeftLink(p) || IndexData(r) in ChildData(p.entries)
  {
    var r := GetPageNoByKey(p, key);
    if p.entries[0].key <= key {
      var i :| 0 <= i < |p.entries| && p.entries[i].data == IndexData(r);
      assert ChildData(p.entries)[i] == IndexData(r);
    }
  }

  /** The payloads of an entry sequence, in order. */
  function ChildData(s: seq<KeyDataEntry>): (r: seq<DataType>)
    ensures |r| == |s| && forall i :: 0 <= i < |s| ==> r[i] == s[i].data
  {
    seq(|s|, i requires 0 <= i < |s| => s[i].data)
  }

  /**
   * On a sorted page, getPageNoByKey returns the child of the LAST separator
   * that is at most `key`: every later separator, including every later one
   * equal to `key`, has been stepped past.
   */
  lemma GetPageNoByKeyPicksLastSeparator(p: SortedPage, key: Key)
    requires IsIndexPage(p) && |p.entries| > 0 && Sorted(p.entries)
    requires p.entries[0].key <= key
    ensures exists i ::
              && 0 <= i < |p.entries| && p.entries[i].data == IndexData(GetPageNoByKey(p, key))
              && p.entries[i].key <= key && forall m :: i < m < |p.entries| ==> key < p.entries[m].key
  {
    var i := LastNotAbove(p.entries, key, 0);
    assert p.entries[i] in p.entries;
    assert p.entries[i].data == IndexData(GetPageNoByKey(p, key));
    if i > 0 {
      assert p.entries[i].key <= key;
    }
    forall m | i < m < |p.entries| ensures key < p.entries[m].key {
      assert key < p.entries[i + 1].key;
      assert p.entries[i + 1].key <= p.entries[m].key;
    }
  }

  /** getFirst(rid): the first entry, moving `rid` to its slot; none on an empty page. */
  function GetFirst(p: SortedPage, rid: nat): (r: (Option<KeyDataEntry>, nat))
    requires IsIndexPage(p)
    ensures r.0.None? <==> |p.entries| == 0
    ensures r.0.None? ==> r.1 == rid
    ensures r.0.Some? ==> r.1 == 0 && r.0.value == p.entries[0] && r.0.value.data.IndexData?
  {
    BTSortedPage.GetFirst(p, rid)
  }

  /** getNext(rid): the entry after `rid`, moving `rid` to it; none at the end of the page. */
  function GetNext(p: SortedPage, rid: nat): (r: (Option<KeyDataEntry>, nat))
    requires IsIndexPage(p)
    ensures r.0.None? <==> rid + 1 >= |p.entries|
    ensures r.0.None? ==> r.1 == rid
    ensures r.0.Some? ==> r.1 == rid + 1 && r.0.value == p.entries[rid + 1] && r.0.value.data.IndexData?
  {
    BTSortedPage.GetNext(p, rid)
  }
}
