/**
 * The page-level steps an insertion into a full page takes (the private
 * helpers of BTreeFile): splitting a leaf or an index page in two, finding
 * the last entry or record of a page, deciding on which side of a split the
 * overflowing entry belongs, and placing it there.
 *
 * Pages are values here: a split returns the two halves and the engine
 * stores them under the old page id and a newly allocated one.
 */
module BTreeSplit {
  import opened BT
  import opened BTSortedPage
  import opened BTLeafPage
  import opened BTIndexPage

  /** Ordered halves: a sorted concatenation is two sorted runs, every key of the first at most every key of the second. */
  lemma SortedSplit(a: seq<KeyDataEntry>, b: seq<KeyDataEntry>)
    requires Sorted(a + b)
    ensures Sorted(a) && Sorted(b)
    ensures forall x, y :: x in a && y in b ==> x.key <= y.key
  {
    forall i, j | 0 <= i < j < |a| ensures a[i].key <= a[j].key {
      assert (a + b)[i] == a[i] && (a + b)[j] == a[j];
    }
    forall i, j | 0 <= i < j < |b| ensures b[i].key <= b[j].key {
      assert (a + b)[|a| + i] == b[i] && (a + b)[|a| + j] == b[j];
    }
    forall x, y | x in a && y in b ensures x.key <= y.key {
      var i :| 0 <= i < |a| && a[i] == x;
      var j :| 0 <= j < |b| && b[j] == y;
      assert (a + b)[i] == x && (a + b)[|a| + j] == y;
    }
  }

  lemma SortedConcat(a: seq<KeyDataEntry>, b: seq<KeyDataEntry>)
    requires Sorted(a) && Sorted(b)
    requires forall x, y :: x in a && y in b ==> x.key <= y.key
    ensures Sorted(a + b)
  {
    var c := a + b;
    forall i, j | 0 <= i < j < |c| ensures c[i].key <= c[j].key {
      if j < |a| {
        assert c[i] == a[i] && c[j] == a[j];
      } else if i >= |a| {
        assert c[i] == b[i - |a|] && c[j] == b[j - |a|];
      } else {
        assert c[i] == a[i] && c[j] == b[j - |a|];
      }
    }
  }

  /** In a sorted run every key lies between the first and the last. */
  lemma SortedBounds(s: seq<KeyDataEntry>)
    requires Sorted(s) && |s| > 0
    ensures forall x :: x in s ==> s[0].key <= x.key <= s[|s| - 1].key
  {
    forall x | x in s ensures s[0].key <= x.key <= s[|s| - 1].key {
      var i :| 0 <= i < |s| && s[i] == x;
    }
  }

  /** Every key of `s` is at most `k`. */
  ghost predicate KeysAtMost(s: seq<KeyDataEntry>, k: Key)
  {
    forall x :: x in s ==> x.key <= k
  }

  /** Every key of `s` is at least `k`. */
  ghost predicate KeysAtLeast(s: seq<KeyDataEntry>, k: Key)
  {
    forall x :: x in s ==> k <= x.key
  }

  /** Two sorted runs separated by a key concatenate to a sorted run. */
  lemma SortedConcatAt(a: seq<KeyDataEntry>, b: seq<KeyDataEntry>, k: Key)
    requires Sorted(a) && Sorted(b) && KeysAtMost(a, k) && KeysAtLeast(b, k)
    ensures Sorted(a + b)
  {
    SortedConcat(a, b);
  }

  /** A prefix of a sorted run is sorted and bounded by the next entry's key. */
  lemma SortedPrefix(s: seq<KeyDataEntry>, lo: nat, i: nat)
    requires Sorted(s) && lo <= i < |s|
    ensures Sorted(s[lo..i]) && KeysAtMost(s[lo..i], s[i].key)
  {
    forall x | x in s[lo..i] ensures x.key <= s[i].key {
      var j :| 0 <= j < i - lo && s[lo..i][j] == x;
      assert s[lo + j] == x;
    }
  }

  /** Removing the last slot of a prefix gives the prefix one shorter. */
  lemma RemoveLastOfPrefix(s: seq<KeyDataEntry>, m: nat)
    requires 0 < m <= |s|
    ensures RemoveAt(s[..m], m - 1) == s[..m - 1]
  {
  }

  /** Inserting a key no smaller than any on a non-full sorted page appends it. */
  lemma InsertSortedAppends(p: SortedPage, e: KeyDataEntry, capacity: nat)
    requires Sorted(p.entries) && KeysAtMost(p.entries, e.key) && |p.entries| < capacity
    ensures InsertSorted(p, e, capacity).0 == p.(entries := p.entries + [e])
  {
    var r := InsertSorted(p, e, capacity);
    var slot := r.1.value;
    forall j | 0 <= j < |p.entries| ensures p.entries[j].key <= e.key {
      assert p.entries[j] in p.entries;
    }
    assert slot == |p.entries|;
    assert p.entries[..slot] == p.entries && p.entries[slot..] == [];
  }

  /** The first loop of splitLeaf's copy: getFirst, then getNext `m` times. */
  method SkipLeafEntries(parentPage: SortedPage, m: nat) returns (current: (Option<KeyDataEntry>, nat))
    requires IsLeafPage(parentPage) && m <= |parentPage.entries|
    ensures m < |parentPage.entries| ==> current == (Some(parentPage.entries[m]), m)
  {
    var s := parentPage.entries;
    current := BTLeafPage.GetFirst(parentPage, 0);
    for i := 0 to m
      invariant i < |s| ==> current == (Some(s[i]), i)
    {
      current := BTLeafPage.GetNext(parentPage, current.1);
    }
  }

  /** One turn of splitLeaf's copy loop: inserting the next entry of a sorted page appends it. */
  method CopyLeafEntry(s: seq<KeyDataEntry>, lo: nat, i: nat, upper: SortedPage, e: KeyDataEntry, capacity: nat)
      returns (r: SortedPage)
    requires Sorted(s) && lo <= i < |s| && i - lo < capacity && e == s[i] && e.data.LeafData?
    requires upper == EmptyPage(LeafNode).(entries := s[lo..i])
    ensures r == EmptyPage(LeafNode).(entries := s[lo..i + 1])
  {
    SortedPrefix(s, lo, i);
    assert KeyDataEntry(e.key, LeafData(e.data.rid)) == e;
    InsertSortedAppends(upper, e, capacity);
    r := BTLeafPage.InsertRecord(upper, e.key, e.data.rid, capacity).0;
    assert s[lo..i] + [s[i]] == s[lo..i + 1];
  }

  /** The first loop of splitIndex's copy: getFirst, then getNext `m` times. */
  method SkipIndexEntries(parentPage: SortedPage, m: nat) returns (current: (Option<KeyDataEntry>, nat))
    requires IsIndexPage(parentPage) && m <= |parentPage.entries|
    ensures m < |parentPage.entries| ==> current == (Some(parentPage.entries[m]), m)
  {
    var s := parentPage.entries;
    current := BTIndexPage.GetFirst(parentPage, 0);
    for i := 0 to m
      invariant i < |s| ==> current == (Some(s[i]), i)
    {
      current := BTIndexPage.GetNext(parentPage, current.1);
    }
  }

  /** One turn of splitIndex's copy loop: inserting the next entry of a sorted page appends it. */
  method CopyIndexEntry(s: seq<KeyDataEntry>, lo: nat, i: nat, upper: SortedPage, e: KeyDataEntry, capacity: nat)
      returns (r: SortedPage)
    requires Sorted(s) && lo <= i < |s| && i - lo < capacity && e == s[i] && e.data.IndexData?
    requires upper == EmptyPage(IndexNode).(entries := s[lo..i])
    ensures r == EmptyPage(IndexNode).(entries := s[lo..i + 1])
  {
    SortedPrefix(s, lo, i);
    assert KeyDataEntry(e.key, IndexData(e.data.pageNo)) == e;
    InsertSortedAppends(upper, e, capacity);
    r := BTIndexPage.InsertKey(upper, e.key, e.data.pageNo, capacity).0;
    assert s[lo..i] + [s[i]] == s[lo..i + 1];
  }

  /**
   * getLastEntry: walks a leaf with getFirst, getNext and getCurrent and
   * returns the last entry, or none for an empty leaf.
   */
  method GetLastEntry(page: SortedPage) returns (currentEntry: Option<KeyDataEntry>)
    requires IsLeafPage(page)
    ensures page.entries == [] ==> currentEntry.None?
    ensures page.entries != [] ==> currentEntry == Some(page.entries[|page.entries| - 1])
  {
    var n := |page.entries|;
    var first := BTLeafPage.GetFirst(page, 0);
    currentEntry := first.0;
    var next := BTLeafPage.GetNext(page, first.1);
    var iteratorRecord := next.1;
    while next.0.Some?
      invariant n == 0 ==> currentEntry.None? && next.0.None?
      invariant n > 0 ==> iteratorRecord < n
      invariant next.0.Some? ==> 0 < iteratorRecord && currentEntry == Some(page.entries[iteratorRecord - 1])
      invariant next.0.None? && n > 0 ==> iteratorRecord == n - 1 && currentEntry == Some(page.entries[n - 1])
      decreases n - iteratorRecord, if next.0.Some? then 1 else 0
    {
      currentEntry := Some(GetCurrent(page, iteratorRecord));
      next := BTLeafPage.GetNext(page, iteratorRecord);
      iteratorRecord := next.1;
    }
  }

  /**
   * getLastRecord: steps through the record locators of a page and returns
   * the last one. The source dereferences the first locator, which is null
   * on an empty page, so the page must hold an entry.
   */
  method GetLastRecord(page: SortedPage) returns (currentRecord: nat)
    requires |page.entries| > 0
    ensures currentRecord == |page.entries| - 1
  {
    currentRecord := 0;
    var nextRecord := BTSortedPage.GetNext(page, currentRecord);
    while nextRecord.0.Some?
      invariant currentRecord < |page.entries|
      invariant nextRecord.0.Some? ==> nextRecord.1 == currentRecord + 1 < |page.entries|
      invariant nextRecord.0.None? ==> currentRecord == |page.entries| - 1
      decreases |page.entries| - currentRecord
    {
      currentRecord := BTSortedPage.GetNext(page, currentRecord).1;
      nextRecord := BTSortedPage.GetNext(page, nextRecord.1);
    }
  }

  /**
   * splitLeaf, corrected: the entries from slot n/2 on are copied, in order,
   * into a new leaf, and then removed from the old one by position, last
   * first. The old leaf keeps the lower half; nothing is lost or doubled.
   */
  method SplitLeaf(parentPage: SortedPage, capacity: nat) returns (lower: SortedPage, upper: SortedPage)
    requires IsLeafPage(parentPage) && Sorted(parentPage.entries)
    requires |parentPage.entries| - |parentPage.entries| / 2 <= capacity
    ensures lower == parentPage.(entries := parentPage.entries[..|parentPage.entries| / 2])
    ensures upper == EmptyPage(LeafNode).(entries := parentPage.entries[|parentPage.entries| / 2..])
    ensures lower.entries + upper.entries == parentPage.entries
  {
    var n := |parentPage.entries|;
    upper := CopyUpperLeafHalf(parentPage, capacity);
    lower := parentPage;
    for i := n / 2 to n
      invariant lower == parentPage.(entries := parentPage.entries[..n - (i - n / 2)])
    {
      var last := GetLastRecord(lower);
      RemoveLastOfPrefix(parentPage.entries, n - (i - n / 2));
      lower := DeleteSortedRecord(lower, last).0;
    }
    assert parentPage.entries[..n / 2] + parentPage.entries[n / 2..] == parentPage.entries;
  }

  /** The copy loop of splitLeaf: the entries from slot n/2 on, inserted in order into a new leaf. */
  method CopyUpperLeafHalf(parentPage: SortedPage, capacity: nat) returns (upper: SortedPage)
    requires IsLeafPage(parentPage) && Sorted(parentPage.entries)
    requires |parentPage.entries| - |parentPage.entries| / 2 <= capacity
    ensures upper == EmptyPage(LeafNode).(entries := parentPage.entries[|parentPage.entries| / 2..])
  {
    var n := |parentPage.entries|;
    var s := parentPage.entries;
    upper := EmptyPage(LeafNode);
    var current := SkipLeafEntries(parentPage, n / 2);
    for i := n / 2 to n
      invariant i < n ==> current == (Some(s[i]), i)
      invariant upper == EmptyPage(LeafNode).(entries := s[n / 2..i])
    {
      var e := current.0.value;
      upper := CopyLeafEntry(s, n / 2, i, upper, e, capacity);
      current := BTLeafPage.GetNext(parentPage, current.1);
    }
  }

  /** The entry sequence after one turn of splitLeaf's delete loop as written. */
  function DropOne(s: seq<KeyDataEntry>): (r: seq<KeyDataEntry>)
    ensures s != [] ==> |r| == |s| - 1
  {
    if s == [] then s
    else match FirstKeyIndex(s, s[|s| - 1].key)
      case Some(j) => RemoveAt(s, j)
      case None => s
  }

  /** The entry sequence after `m` turns of splitLeaf's delete loop as written. */
  function DropLastByKey(s: seq<KeyDataEntry>, m: nat): (r: seq<KeyDataEntry>)
    requires m <= |s|
    ensures |r| == |s| - m
  {
    if m == 0 then s else DropOne(DropLastByKey(s, m - 1))
  }

  /** One turn of the as-written delete loop only removes an entry. */
  lemma DropOneShrinks(s: seq<KeyDataEntry>)
    ensures forall x :: x in DropOne(s) ==> x in s
  {
    if s != [] {
      match FirstKeyIndex(s, s[|s| - 1].key)
      case Some(j) => RemoveAtKeeps(s, j);
      case None =>
    }
  }

  /** The as-written delete loop only ever removes entries. */
  lemma {:induction false} DropLastByKeyShrinks(s: seq<KeyDataEntry>, m: nat)
    requires m <= |s|
    ensures forall x :: x in DropLastByKey(s, m) ==> x in s
  {
    if m > 0 {
      DropLastByKeyShrinks(s, m - 1);
      DropOneShrinks(DropLastByKey(s, m - 1));
    }
  }

  /** So a leaf stays a leaf under the as-written delete loop. */
  lemma DropLastByKeyKeepsLeaf(p: SortedPage, m: nat)
    requires IsLeafPage(p) && m <= |p.entries|
    ensures IsLeafPage(p.(entries := DropLastByKey(p.entries, m)))
  {
    DropLastByKeyShrinks(p.entries, m);
  }

  /**
   * splitLeaf as written: the delete loop takes the last entry and hands it
   * to delEntry, which removes the first entry with that key, not the last
   * slot.
   */
  method SplitLeafAsWritten(parentPage: SortedPage, capacity: nat) returns (lower: SortedPage, upper: SortedPage)
    requires IsLeafPage(parentPage) && Sorted(parentPage.entries)
    requires |parentPage.entries| - |parentPage.entries| / 2 <= capacity
    ensures lower == parentPage.(entries := DropLastByKey(parentPage.entries, |parentPage.entries| - |parentPage.entries| / 2))
    ensures upper == EmptyPage(LeafNode).(entries := parentPage.entries[|parentPage.entries| / 2..])
  {
    upper := CopyUpperLeafHalf(parentPage, capacity);
    lower := DeleteUpperAsWritten(parentPage, |parentPage.entries| - |parentPage.entries| / 2);
  }

  /**
   * The delete loop of splitLeaf as written: `moved` times, fetch the last
   * entry with getLastEntry and hand it to delEntry.
   */
  method DeleteUpperAsWritten(parentPage: SortedPage, moved: nat) returns (lower: SortedPage)
    requires IsLeafPage(parentPage) && moved <= |parentPage.entries|
    ensures lower == parentPage.(entries := DropLastByKey(parentPage.entries, moved))
  {
    lower := parentPage;
    for k := 0 to moved
      invariant lower == parentPage.(entries := DropLastByKey(parentPage.entries, k))
    {
      DropLastByKeyKeepsLeaf(parentPage, k);
      var currentEntry := GetLastEntry(lower);
      if currentEntry.Some? {
        var deleted;
        lower, deleted := DelEntry(lower, currentEntry.value);
      }
    }
  }

  /**
   * The as-written loop loses an entry. A full leaf of capacity 2 holding
   * two entries with key 5 keeps the second of them while the new leaf
   * receives the second as well: the first is gone and the second is there
   * twice.
   */
  lemma SplitLeafAsWrittenLosesDuplicate()
    ensures var a := KeyDataEntry(5, LeafData(Rid(1, 0)));
            var b := KeyDataEntry(5, LeafData(Rid(1, 1)));
            var s := [a, b];
            && Sorted(s) && |s| - |s| / 2 == 1
            && DropLastByKey(s, 1) == [b]
            && DropLastByKey(s, 1) + s[1..] == [b, b]
            && a !in DropLastByKey(s, 1) + s[1..]
  {
    var a := KeyDataEntry(5, LeafData(Rid(1, 0)));
    var b := KeyDataEntry(5, LeafData(Rid(1, 1)));
    var s := [a, b];
    assert s[0].key == 5;
    var j := FirstKeyIndex(s, s[1].key);
    assert j == Some(0);
    var t := RemoveAt(s, 0);
    assert |t| == 1 && t[0] == s[1];
    assert t == [b];
    assert DropOne(s) == [b];
    assert DropLastByKey(s, 1) == DropOne(s);
    assert a != b;
  }

  /** With distinct keys the as-written loop removes exactly the last `m` slots, as intended. */
  lemma {:induction false} DropLastByKeyDistinct(s: seq<KeyDataEntry>, m: nat)
    requires m <= |s|
    requires forall i, j :: 0 <= i < j < |s| ==> s[i].key != s[j].key
    ensures DropLastByKey(s, m) == s[..|s| - m]
  {
    if m > 0 {
      DropLastByKeyDistinct(s, m - 1);
      var t := s[..|s| - m + 1];
      var last := |t| - 1;
      assert t[last] == s[last];
      forall q | 0 <= q < last ensures t[q].key != t[last].key {
        assert t[q] == s[q];
      }
      var r := FirstKeyIndex(t, t[last].key);
      assert r == Some(last);
      assert DropOne(t) == RemoveAt(t, last);
      RemoveLastOfPrefix(s, |s| - m + 1);
    }
  }

  /**
   * splitIndex: the entries from slot n/2 on are copied, in order, into a
   * new index page, and then removed from the old one by position (its last
   * record, found with getLastRecord), last first.
   */
  method SplitIndex(parentPage: SortedPage, capacity: nat) returns (lower: SortedPage, upper: SortedPage)
    requires IsIndexPage(parentPage) && Sorted(parentPage.entries)
    requires |parentPage.entries| - |parentPage.entries| / 2 <= capacity
    ensures lower == parentPage.(entries := parentPage.entries[..|parentPage.entries| / 2])
    ensures upper == EmptyPage(IndexNode).(entries := parentPage.entries[|parentPage.entries| / 2..])
    ensures lower.entries + upper.entries == parentPage.entries
  {
    var n := |parentPage.entries|;
    var s := parentPage.entries;
    upper := CopyUpperIndexHalf(parentPage, capacity);
    lower := parentPage;
    for i := n / 2 to n
      invariant lower == parentPage.(entries := s[..n - (i - n / 2)])
    {
      var iteratorRecord := GetLastRecord(lower);
      RemoveLastOfPrefix(s, n - (i - n / 2));
      lower := DeleteSortedRecord(lower, iteratorRecord).0;
    }
    assert s[..n / 2] + s[n / 2..] == s;
  }

  /** The copy loop of splitIndex: the entries from slot n/2 on, inserted in order into a new index page. */
  method CopyUpperIndexHalf(parentPage: SortedPage, capacity: nat) returns (upper: SortedPage)
    requires IsIndexPage(parentPage) && Sorted(parentPage.entries)
    requires |parentPage.entries| - |parentPage.entries| / 2 <= capacity
    ensures upper == EmptyPage(IndexNode).(entries := parentPage.entries[|parentPage.entries| / 2..])
  {
    var n := |parentPage.entries|;
    var s := parentPage.entries;
    upper := EmptyPage(IndexNode);
    var current := SkipIndexEntries(parentPage, n / 2);
    for i := n / 2 to n
      invariant i < n ==> current == (Some(s[i]), i)
      invariant upper == EmptyPage(IndexNode).(entries := s[n / 2..i])
    {
      var e := current.0.value;
      upper := CopyIndexEntry(s, n / 2, i, upper, e, capacity);
      current := BTIndexPage.GetNext(parentPage, current.1);
    }
  }

  /** Where findLocation sends an entry: into the left half, the right half, up to the parent, or nowhere. */
  datatype Location = InsertLeft | InsertRight | PushUp | Nowhere

  /**
   * findLocation's decision, from the last key left of the split, the first
   * key right of it and the key of the entry to place.
   */
  function Locate(nodeType: NodeType, leftKey: Key, rightKey: Key, key: Key): Location
  {
    if nodeType == IndexNode then
      if key < leftKey && key < rightKey then InsertLeft
      else if key > leftKey && key > rightKey then InsertRight
      else PushUp
    else
      if key < rightKey then InsertLeft
      else if key > leftKey || key == rightKey then InsertRight
      else Nowhere
  }

  /** For ordered halves of a leaf, an entry goes left exactly when its key is below the first key on the right; it always goes somewhere. */
  lemma LocateLeafOrdered(leftKey: Key, rightKey: Key, key: Key)
    requires leftKey <= rightKey
    ensures Locate(LeafNode, leftKey, rightKey, key) == if key < rightKey then InsertLeft else InsertRight
  {
  }

  /** For ordered halves of an index page: left below the left key, right above the right key, pushed up in between. */
  lemma LocateIndexOrdered(leftKey: Key, rightKey: Key, key: Key)
    requires leftKey <= rightKey
    ensures Locate(IndexNode, leftKey, rightKey, key) == InsertLeft <==> key < leftKey
    ensures Locate(IndexNode, leftKey, rightKey, key) == InsertRight <==> rightKey < key
    ensures Locate(IndexNode, leftKey, rightKey, key) == PushUp <==> leftKey <= key <= rightKey
  {
  }

  /** findLocation: walks the left page to its last entry, reads the first entry of the right page, and decides. */
  method FindLocation(parentPage: SortedPage, splittedPage: SortedPage, key: Key) returns (loc: Location)
    requires |parentPage.entries| > 0 && |splittedPage.entries| > 0
    ensures loc == Locate(parentPage.nodeType, parentPage.entries[|parentPage.entries| - 1].key,
                          splittedPage.entries[0].key, key)
  {
    var leftData := BTSortedPage.GetFirst(parentPage, 0);
    for i := 0 to |parentPage.entries| - 1
      invariant leftData == (Some(parentPage.entries[i]), i)
    {
      leftData := BTSortedPage.GetNext(parentPage, leftData.1);
    }
    var rightData := BTSortedPage.GetFirst(splittedPage, 0);
    loc := Locate(parentPage.nodeType, leftData.0.value.key, rightData.0.value.key, key);
  }

  /** insertRecord into one half of a split leaf, which has room: the half stays a sorted leaf and gains the entry. */
  method InsertIntoLeafHalf(p: SortedPage, entry: KeyDataEntry, capacity: nat) returns (q: SortedPage)
    requires IsLeafPage(p) && Sorted(p.entries) && entry.data.LeafData? && |p.entries| < capacity
    ensures IsLeafPage(q) && Sorted(q.entries) && |q.entries| == |p.entries| + 1
    ensures q.prevPage == p.prevPage && q.nextPage == p.nextPage
    ensures multiset(q.entries) == multiset(p.entries) + multiset{entry}
    ensures forall x :: x in q.entries ==> x in p.entries || x == entry
  {
    assert KeyDataEntry(entry.key, LeafData(entry.data.rid)) == entry;
    q := InsertRecord(p, entry.key, entry.data.rid, capacity).0;
  }

  /**
   * After a leaf split: the new entry goes into the half findLocation picks,
   * and the entry copied up is the first key of the right half paired with
   * the right half's page id.
   */
  method PlaceInLeafSplit(leafPage: SortedPage, splittedPage: SortedPage, entry: KeyDataEntry,
                          splittedId: PageId, capacity: nat)
      returns (lower: SortedPage, upper: SortedPage, copyUp: KeyDataEntry)
    requires IsLeafPage(leafPage) && IsLeafPage(splittedPage) && entry.data.LeafData?
    requires 0 < |leafPage.entries| < capacity && 0 < |splittedPage.entries| < capacity
    requires Sorted(leafPage.entries + splittedPage.entries)
    ensures IsLeafPage(lower) && IsLeafPage(upper)
    ensures 0 < |lower.entries| <= capacity && 0 < |upper.entries| <= capacity
    ensures lower.prevPage == leafPage.prevPage && lower.nextPage == leafPage.nextPage
    ensures upper.prevPage == splittedPage.prevPage && upper.nextPage == splittedPage.nextPage
    ensures Sorted(lower.entries) && Sorted(upper.entries) && Sorted(lower.entries + upper.entries)
    ensures multiset(lower.entries) + multiset(upper.entries)
         == multiset(leafPage.entries) + multiset(splittedPage.entries) + multiset{entry}
    ensures copyUp == KeyDataEntry(upper.entries[0].key, IndexData(splittedId))
    ensures forall x :: x in lower.entries ==> x.key <= copyUp.key
    ensures forall x :: x in upper.entries ==> copyUp.key <= x.key
  {
    var leftKey, rightKey := OrderedHalves(leafPage.entries, splittedPage.entries);
    var location := FindLocation(leafPage, splittedPage, entry.key);
    LocateLeafOrdered(leftKey, rightKey, entry.key);
    lower, upper := leafPage, splittedPage;
    if location == InsertRight {
      upper := InsertIntoLeafHalf(splittedPage, entry, capacity);
    } else if location == InsertLeft {
      lower := InsertIntoLeafHalf(leafPage, entry, capacity);
    }
    assert KeysAtMost(lower.entries, rightKey) && KeysAtLeast(upper.entries, rightKey);
    SortedConcatAt(lower.entries, upper.entries, rightKey);
    var tempRecord := BTLeafPage.GetFirst(upper, 0);
    copyUp := KeyDataEntry(tempRecord.0.value.key, IndexData(splittedId));
    SortedBounds(upper.entries);
    assert upper.entries[0] in upper.entries;
  }

  /**
   * The page work of a leaf split during insertion: split the full leaf,
   * give the new leaf `newId` its links (left to the old leaf, right to the
   * old leaf's right neighbour), point the old leaf at the new one, and
   * place the entry. The separator is the new leaf's first key.
   */
  method SplitLeafAndPlace(leafPage: SortedPage, pid: PageId, newId: PageId, entry: KeyDataEntry, capacity: nat)
      returns (left: SortedPage, right: SortedPage, copyUp: KeyDataEntry)
    requires IsLeafPage(leafPage) && Sorted(leafPage.entries) && entry.data.LeafData?
    requires 2 <= capacity == |leafPage.entries|
    ensures IsLeafPage(left) && IsLeafPage(right) && Sorted(left.entries) && Sorted(right.entries)
    ensures Sorted(left.entries + right.entries)
    ensures 0 < |left.entries| <= capacity && 0 < |right.entries| <= capacity
    ensures left.prevPage == leafPage.prevPage && left.nextPage == newId
    ensures right.prevPage == pid && right.nextPage == leafPage.nextPage
    ensures multiset(left.entries) + multiset(right.entries) == multiset(leafPage.entries) + multiset{entry}
    ensures copyUp == KeyDataEntry(right.entries[0].key, IndexData(newId))
    ensures forall x :: x in left.entries ==> x.key <= copyUp.key
    ensures forall x :: x in right.entries ==> copyUp.key <= x.key
  {
    var lower, upper := SplitLeaf(leafPage, capacity);
    upper := upper.(prevPage := pid, nextPage := leafPage.nextPage);
    lower := lower.(nextPage := newId);
    left, right, copyUp := PlaceInLeafSplit(lower, upper, entry, newId, capacity);
  }

  /**
   * The index branch of splittedInserstion up to the push-up: split the
   * full index page and place the separator, so that the page keeps its
   * left link and the pushed-up entry names the new page.
   */
  method SplitIndexAndPlace(parentPage: SortedPage, entry: KeyDataEntry, newId: PageId, capacity: nat)
      returns (left: SortedPage, right: SortedPage, pushUp: KeyDataEntry)
    requires IsIndexPage(parentPage) && Sorted(parentPage.entries) && entry.data.IndexData?
    requires 2 <= capacity == |parentPage.entries|
    ensures IsIndexPage(left) && IsIndexPage(right) && Sorted(left.entries) && Sorted(right.entries)
    ensures 0 < |left.entries| <= capacity && 0 < |right.entries| <= capacity
    ensures left.prevPage == parentPage.prevPage
    ensures pushUp.data == IndexData(newId)
    ensures forall x :: x in left.entries ==> x.key <= pushUp.key
    ensures forall x :: x in right.entries ==> pushUp.key <= x.key
    ensures multiset(left.entries) + multiset(right.entries) + multiset{KeyDataEntry(pushUp.key, IndexData(right.prevPage))}
         == multiset(parentPage.entries) + multiset{entry}
  {
    var lower, upper := SplitIndex(parentPage, capacity);
    left, right, pushUp := PlaceInIndexSplit(lower, upper, entry, newId, capacity);
  }

  /** The two halves of a split: each sorted, and the last key on the left at most the first key on the right. */
  lemma OrderedHalves(a: seq<KeyDataEntry>, b: seq<KeyDataEntry>) returns (leftKey: Key, rightKey: Key)
    requires Sorted(a + b) && |a| > 0 && |b| > 0
    ensures leftKey == a[|a| - 1].key && rightKey == b[0].key && leftKey <= rightKey
    ensures Sorted(a) && Sorted(b) && KeysAtMost(a, leftKey) && KeysAtLeast(b, rightKey)
  {
    SortedSplit(a, b);
    leftKey, rightKey := a[|a| - 1].key, b[0].key;
    assert a[|a| - 1] in a && b[0] in b;
    SortedBounds(a);
    SortedBounds(b);
  }

  /** What a placement after an index split guarantees (see PlaceInIndexSplit). */
  ghost predicate IndexPlacementOk(parentPage: SortedPage, splittedPage: SortedPage, entry: KeyDataEntry,
                                   splittedId: PageId, capacity: nat,
                                   lower: SortedPage, upper: SortedPage, pushUp: KeyDataEntry)
  {
    && IsIndexPage(lower) && IsIndexPage(upper)
    && 0 < |lower.entries| <= capacity && 0 < |upper.entries| <= capacity
    && lower.prevPage == parentPage.prevPage && lower.nextPage == parentPage.nextPage
    && upper.nextPage == splittedPage.nextPage
    && Sorted(lower.entries) && Sorted(upper.entries)
    && pushUp.data == IndexData(splittedId)
    && KeysAtMost(lower.entries, pushUp.key) && KeysAtLeast(upper.entries, pushUp.key)
    && multiset(lower.entries) + multiset(upper.entries) + multiset{KeyDataEntry(pushUp.key, IndexData(upper.prevPage))}
       == multiset(parentPage.entries) + multiset(splittedPage.entries) + multiset{entry}
  }

  /** The preconditions shared by the placements after an index split. */
  ghost predicate IndexSplitHalves(parentPage: SortedPage, splittedPage: SortedPage, entry: KeyDataEntry, capacity: nat)
  {
    && IsIndexPage(parentPage) && IsIndexPage(splittedPage) && entry.data.IndexData?
    && 0 < |parentPage.entries| <= capacity && 0 < |splittedPage.entries| <= capacity
    && Sorted(parentPage.entries + splittedPage.entries)
  }

  /**
   * After an index split: the entry coming up from below is either pushed
   * on up (its child becomes the right half's left link), or replaces the
   * first entry of the right half, or the last entry of the left half; the
   * entry it replaces is pushed up, its child becoming the right half's left
   * link. The pushed-up key is paired with the right half's page id.
   */
  method PlaceInIndexSplit(parentPage: SortedPage, splittedPage: SortedPage, entry: KeyDataEntry,
                           splittedId: PageId, capacity: nat)
      returns (lower: SortedPage, upper: SortedPage, pushUp: KeyDataEntry)
    requires IsIndexPage(parentPage) && IsIndexPage(splittedPage) && entry.data.IndexData?
    requires 0 < |parentPage.entries| <= capacity && 0 < |splittedPage.entries| <= capacity
    requires Sorted(parentPage.entries + splittedPage.entries)
    ensures IsIndexPage(lower) && IsIndexPage(upper)
    ensures 0 < |lower.entries| <= capacity && 0 < |upper.entries| <= capacity
    ensures lower.prevPage == parentPage.prevPage && lower.nextPage == parentPage.nextPage
    ensures upper.nextPage == splittedPage.nextPage
    ensures Sorted(lower.entries) && Sorted(upper.entries) && Sorted(lower.entries + upper.entries)
    ensures pushUp.data == IndexData(splittedId)
    ensures forall x :: x in lower.entries ==> x.key <= pushUp.key
    ensures forall x :: x in upper.entries ==> pushUp.key <= x.key
    ensures multiset(lower.entries) + multiset(upper.entries) + multiset{KeyDataEntry(pushUp.key, IndexData(upper.prevPage))}
         == multiset(parentPage.entries) + multiset(splittedPage.entries) + multiset{entry}
  {
    var leftKey, rightKey := OrderedHalves(parentPage.entries, splittedPage.entries);
    var location := FindLocation(parentPage, splittedPage, entry.key);
    LocateIndexOrdered(leftKey, rightKey, entry.key);
    if location == PushUp {
      lower := parentPage;
      upper := SetLeftLink(splittedPage, entry.data.pageNo);
      pushUp := KeyDataEntry(entry.key, IndexData(splittedId));
      assert KeyDataEntry(entry.key, IndexData(entry.data.pageNo)) == entry;
    } else if location == InsertRight {
      lower, upper, pushUp := ReplaceFirstOfRight(parentPage, splittedPage, entry, splittedId, capacity);
    } else {
      lower, upper, pushUp := ReplaceLastOfLeft(parentPage, splittedPage, entry, splittedId, capacity);
    }
    SortedConcatAt(lower.entries, upper.entries, pushUp.key);
  }

  /** insertKey into one half of a split index page, which has room: the half stays a sorted index page and gains the entry. */
  method InsertIntoIndexHalf(p: SortedPage, entry: KeyDataEntry, capacity: nat) returns (q: SortedPage)
    requires IsIndexPage(p) && Sorted(p.entries) && entry.data.IndexData? && |p.entries| < capacity
    ensures IsIndexPage(q) && Sorted(q.entries) && |q.entries| == |p.entries| + 1
    ensures q.prevPage == p.prevPage && q.nextPage == p.nextPage
    ensures multiset(q.entries) == multiset(p.entries) + multiset{entry}
    ensures forall x :: x in q.entries ==> x in p.entries || x == entry
  {
    assert KeyDataEntry(entry.key, IndexData(entry.data.pageNo)) == entry;
    q := InsertKey(p, entry.key, entry.data.pageNo, capacity).0;
  }

  /** The "right" case: the first entry of the right half goes up, the new entry takes its place. */
  method ReplaceFirstOfRight(parentPage: SortedPage, splittedPage: SortedPage, entry: KeyDataEntry,
                             splittedId: PageId, capacity: nat)
      returns (lower: SortedPage, upper: SortedPage, pushUp: KeyDataEntry)
    requires IndexSplitHalves(parentPage, splittedPage, entry, capacity)
    requires splittedPage.entries[0].key < entry.key
    ensures IndexPlacementOk(parentPage, splittedPage, entry, splittedId, capacity, lower, upper, pushUp)
  {
    var leftKey, rightKey := OrderedHalves(parentPage.entries, splittedPage.entries);
    lower := parentPage;
    var tempRecord := BTIndexPage.GetFirst(splittedPage, 0);
    var pushUpEntry := tempRecord.0.value;
    var rest := DeleteSortedRecord(splittedPage, tempRecord.1).0;
    RemoveAtKeeps(splittedPage.entries, tempRecord.1);
    assert KeysAtLeast(rest.entries, rightKey);
    upper := InsertIntoIndexHalf(rest, entry, capacity);
    upper := SetLeftLink(upper, pushUpEntry.data.pageNo);
    pushUp := KeyDataEntry(pushUpEntry.key, IndexData(splittedId));
    assert KeyDataEntry(pushUp.key, IndexData(upper.prevPage)) == pushUpEntry;
  }

  /** The "left" case: the last entry of the left half goes up, the new entry takes its place. */
  method ReplaceLastOfLeft(parentPage: SortedPage, splittedPage: SortedPage, entry: KeyDataEntry,
                           splittedId: PageId, capacity: nat)
      returns (lower: SortedPage, upper: SortedPage, pushUp: KeyDataEntry)
    requires IndexSplitHalves(parentPage, splittedPage, entry, capacity)
    requires entry.key < parentPage.entries[|parentPage.entries| - 1].key
    ensures IndexPlacementOk(parentPage, splittedPage, entry, splittedId, capacity, lower, upper, pushUp)
  {
    var n := |parentPage.entries|;
    var leftKey, rightKey := OrderedHalves(parentPage.entries, splittedPage.entries);
    var tempRecord := SkipIndexEntries(parentPage, n - 1);
    var pushUpEntry := tempRecord.0.value;
    var rest := DeleteSortedRecord(parentPage, tempRecord.1).0;
    RemoveAtKeeps(parentPage.entries, tempRecord.1);
    assert KeysAtMost(rest.entries, leftKey);
    lower := InsertIntoIndexHalf(rest, entry, capacity);
    upper := SetLeftLink(splittedPage, pushUpEntry.data.pageNo);
    pushUp := KeyDataEntry(pushUpEntry.key, IndexData(splittedId));
    assert KeyDataEntry(pushUp.key, IndexData(upper.prevPage)) == pushUpEntry;
  }
}
