/**
 * BTLeafPage: the leaf view of a sorted page. Every entry pairs a key with
 * the record locator of a data record; the sibling fields link the leaves
 * into a doubly linked chain.
 */
module BTLeafPage {
  import opened BT
  import opened BTSortedPage

  ghost predicate IsLeafPage(p: SortedPage)
  {
    p.nodeType == LeafNode && forall x :: x in p.entries ==> x.data.LeafData?
  }

  /**
   * insertRecord(key, dataRid): stores the pair (key, dataRid) at its sorted
   * place and returns its slot, or returns none when the page is full.
   */
  function InsertRecord(p: SortedPage, key: Key, dataRid: Rid, capacity: nat): (r: (SortedPage, Option<nat>))
    ensures r.1.None? <==> |p.entries| >= capacity
    ensures r.1.None? ==> r.0 == p
    ensures r.1.Some? ==>
      && r.1.value <= |p.entries|
      && r.0 == p.(entries := p.entries[..r.1.value] + [KeyDataEntry(key, LeafData(dataRid))] + p.entries[r.1.value..])
      && (forall j :: 0 <= j < r.1.value ==> p.entries[j].key <= key)
      && r.1.value < |r.0.entries| && r.0.entries[r.1.value] == KeyDataEntry(key, LeafData(dataRid))
      && multiset(r.0.entries) == multiset(p.entries) + multiset{KeyDataEntry(key, LeafData(dataRid))}
    ensures r.1.Some? && Sorted(p.entries) ==> forall j :: r.1.value <= j < |p.entries| ==> key < p.entries[j].key
    ensures r.0.nodeType == p.nodeType && r.0.prevPage == p.prevPage && r.0.nextPage == p.nextPage
    ensures forall x :: x in r.0.entries ==> x in p.entries || x == KeyDataEntry(key, LeafData(dataRid))
    ensures Sorted(p.entries) ==> Sorted(r.0.entries)
    ensures IsLeafPage(p) ==> IsLeafPage(r.0)
  {
    InsertSorted(p, KeyDataEntry(key, LeafData(dataRid)), capacity)
  }

  /** getFirst(rid): the first entry, moving `rid` to its slot; none on an empty page. */
  function GetFirst(p: SortedPage, rid: nat): (r: (Option<KeyDataEntry>, nat))
    requires IsLeafPage(p)
    ensures r.0.None? <==> |p.entries| == 0
    ensures r.0.None? ==> r.1 == rid
    ensures r.0.Some? ==> r.1 == 0 && r.0.value == p.entries[0] && r.0.value.data.LeafData?
  {
    BTSortedPage.GetFirst(p, rid)
  }

  /** getNext(rid): the entry after `rid`, moving `rid` to it; none once no record follows. */
  function GetNext(p: SortedPage, rid: nat): (r: (Option<KeyDataEntry>, nat))
    requires IsLeafPage(p)
    ensures r.0.None? <==> rid + 1 >= |p.entries|
    ensures r.0.None? ==> r.1 == rid
    ensures r.0.Some? ==> r.1 == rid + 1 && r.0.value == p.entries[rid + 1] && r.0.value.data.LeafData?
  {
    BTSortedPage.GetNext(p, rid)
  }

  /** getCurrent(rid): the entry in slot `rid`; the locator is not moved. */
  function GetCurrent(p: SortedPage, rid: nat): (r: KeyDataEntry)
    requires IsLeafPage(p) && rid < |p.entries|
    ensures r in p.entries && r.data.LeafData?
  {
    p.entries[rid]
  }

  /**
   * getCurrent on the locator getNext or getFirst hands back returns the
   * entry that call returned: the iteration can be re-read without moving.
   */
  lemma CurrentAfterStep(p: SortedPage, rid: nat)
    requires IsLeafPage(p)
    ensures GetNext(p, rid).0.Some? ==>
      GetNext(p, rid).1 < |p.entries| && GetCurrent(p, GetNext(p, rid).1) == GetNext(p, rid).0.value
    ensures GetFirst(p, rid).0.Some? ==>
      GetFirst(p, rid).1 < |p.entries| && GetCurrent(p, GetFirst(p, rid).1) == GetFirst(p, rid).0.value
  {
  }

  /** The position of the first entry, scanning from slot 0, whose key is `k`. */
  function FirstKeyIndex(s: seq<KeyDataEntry>, k: Key): (r: Option<nat>)
    ensures r.Some? ==> r.value < |s| && s[r.value].key == k
    ensures r.Some? ==> forall j :: 0 <= j < r.value ==> s[j].key != k
    ensures r.None? ==> forall j :: 0 <= j < |s| ==> s[j].key != k
  {
    FirstKeyIndexFrom(s, k, 0)
  }

  /** The position of the first entry at or after slot `from` whose key is `k`. */
  function FirstKeyIndexFrom(s: seq<KeyDataEntry>, k: Key, from: nat): (r: Option<nat>)
    requires from <= |s|
    ensures r.Some? ==> from <= r.value < |s| && s[r.value].key == k
    ensures r.Some? ==> forall j :: from <= j < r.value ==> s[j].key != k
    ensures r.None? ==> forall j :: from <= j < |s| ==> s[j].key != k
    decreases |s| - from
  {
    if from == |s| then None
    else if s[from].key == k then Some(from)
    else FirstKeyIndexFrom(s, k, from + 1)
  }

  /**
   * delEntry(dEntry): removes the first entry whose key equals dEntry's key;
   * the record locator of dEntry is not compared. Reports whether an entry
   * was removed; an empty page or a key with no match leaves the page as it is.
   */
  method DelEntry(p: SortedPage, dEntry: KeyDataEntry) returns (q: SortedPage, deleted: bool)
    requires IsLeafPage(p)
    ensures deleted <==> FirstKeyIndex(p.entries, dEntry.key).Some?
    ensures deleted ==> q == p.(entries := RemoveAt(p.entries, FirstKeyIndex(p.entries, dEntry.key).value))
    ensures !deleted ==> q == p
  {
    q, deleted := p, false;
    if |p.entries| > 0 {
      var currentRecord: nat := 0;
      var currentEntry: Option<KeyDataEntry>;
      currentEntry, currentRecord := GetFirst(p, currentRecord).0, GetFirst(p, currentRecord).1;
      var i := 0;
      while i < |p.entries|
        invariant 0 <= i <= |p.entries|
        invariant currentRecord == i < |p.entries|
        invariant currentEntry == Some(p.entries[currentRecord])
        invariant forall j :: 0 <= j < currentRecord ==> p.entries[j].key != dEntry.key
      {
        if currentEntry.value.key == dEntry.key {
          break;
        } else {
          var next := GetNext(p, currentRecord);
          currentEntry, currentRecord := next.0, next.1;
        }
        if currentEntry.None? {
          return;
        }
        i := i + 1;
      }
      var r := DeleteSortedRecord(p, currentRecord);
      q, deleted := r.0, r.1;
    }
  }
}
