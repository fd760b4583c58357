/**
 * The sorted slotted page that leaf and index pages are views of: a node
 * kind, the entries in slot order, and the two sibling fields of the page
 * header ("previous" and "next").
 *
 * The slotted-page layer itself is not part of this model. A page is
 * represented by its entry sequence; a record locator inside a page is its
 * slot number, which equals its position because a sorted page keeps its
 * slot directory compact. Capacity is a number of entries: an insertion into
 * a page that already holds `capacity` entries fails and leaves it unchanged.
 */
module BTSortedPage {
  import opened BT

  datatype SortedPage = SortedPage(
    nodeType: NodeType,
    entries: seq<KeyDataEntry>,
    prevPage: PageId,
    nextPage: PageId)

  /** A freshly initialised page: no entries and both sibling fields invalid. */
  function EmptyPage(t: NodeType): (p: SortedPage)
    ensures p.nodeType == t && p.entries == []
    ensures p.prevPage == INVALID_PAGE && p.nextPage == INVALID_PAGE
  {
    SortedPage(t, [], INVALID_PAGE, INVALID_PAGE)
  }

  ghost predicate Sorted(s: seq<KeyDataEntry>)
  {
    forall i, j :: 0 <= i < j < |s| ==> s[i].key <= s[j].key
  }

  /**
   * Where a new entry with key `k` goes: before the first entry whose key is
   * strictly greater, so after every entry with an equal key.
   */
  function InsertPos(s: seq<KeyDataEntry>, k: Key): (r: nat)
    ensures r <= |s|
    ensures forall i :: 0 <= i < r ==> s[i].key <= k
    ensures r < |s| ==> k < s[r].key
  {
    if s == [] || k < s[0].key then 0 else 1 + InsertPos(s[1..], k)
  }

  lemma InsertAtKeepsSorted(s: seq<KeyDataEntry>, e: KeyDataEntry)
    ensures Sorted(s) ==> Sorted(s[..InsertPos(s, e.key)] + [e] + s[InsertPos(s, e.key)..])
  {
    if !Sorted(s) { return; }
    var pos := InsertPos(s, e.key);
    var t := s[..pos] + [e] + s[pos..];
    forall i, j | 0 <= i < j < |t| ensures t[i].key <= t[j].key {
      if j < pos {
        assert t[i] == s[i] && t[j] == s[j];
      } else if j == pos {
        assert t[j] == e && t[i] == s[i];
      } else if i == pos {
        assert t[i] == e && t[j] == s[j - 1];
      } else if i < pos {
        assert t[i] == s[i] && t[j] == s[j - 1];
      } else {
        assert t[i] == s[i - 1] && t[j] == s[j - 1];
      }
    }
  }

  /** BTSortedPage.insertRecord: sorted insert, or failure when the page is full. */
  function InsertSorted(p: SortedPage, e: KeyDataEntry, capacity: nat): (r: (SortedPage, Option<nat>))
    ensures r.1.None? <==> |p.entries| >= capacity
    ensures r.1.None? ==> r.0 == p
    ensures r.1.Some? ==>
      && r.1.value <= |p.entries|
      && r.0 == p.(entries := p.entries[..r.1.value] + [e] + p.entries[r.1.value..])
      && (forall j :: 0 <= j < r.1.value ==> p.entries[j].key <= e.key)
    ensures r.1.Some? && Sorted(p.entries) ==> forall j :: r.1.value <= j < |p.entries| ==> e.key < p.entries[j].key
    ensures r.1.Some? ==> |r.0.entries| == |p.entries| + 1 && r.0.entries[r.1.value] == e
    ensures forall x :: x in r.0.entries ==> x in p.entries || x == e
    ensures Sorted(p.entries) ==> Sorted(r.0.entries)
    ensures multiset(r.0.entries) ==
      if r.1.Some? then multiset(p.entries) + multiset{e} else multiset(p.entries)
  {
    if |p.entries| >= capacity then (p, None)
    else
      var pos := InsertPos(p.entries, e.key);
      InsertAtKeepsSorted(p.entries, e);
      assert p.entries == p.entries[..pos] + p.entries[pos..];
      (p.(entries := p.entries[..pos] + [e] + p.entries[pos..]), Some(pos))
  }

  /** The entry sequence with the slot at position `i` removed. */
  function RemoveAt(s: seq<KeyDataEntry>, i: nat): (r: seq<KeyDataEntry>)
    requires i < |s|
    ensures |r| == |s| - 1
    ensures forall j {:trigger r[j]} :: 0 <= j < i ==> r[j] == s[j]
    ensures forall j {:trigger r[j]} :: i <= j < |r| ==> r[j] == s[j + 1]
  {
    s[..i] + s[i + 1..]
  }

  /** Removing a slot takes exactly that entry away and keeps the order. */
  lemma RemoveAtKeeps(s: seq<KeyDataEntry>, i: nat)
    requires i < |s|
    ensures multiset(RemoveAt(s, i)) == multiset(s) - multiset{s[i]}
    ensures forall x :: x in RemoveAt(s, i) ==> x in s
    ensures Sorted(s) ==> Sorted(RemoveAt(s, i))
  {
    assert s == s[..i] + [s[i]] + s[i + 1..];
  }

  /**
   * BTSortedPage.deleteSortedRecord: remove the slot named by `slot`; an
   * invalid slot is rejected and nothing changes.
   */
  function DeleteSortedRecord(p: SortedPage, slot: int): (r: (SortedPage, bool))
    ensures r.1 <==> 0 <= slot < |p.entries|
    ensures r.1 ==> r.0 == p.(entries := RemoveAt(p.entries, slot))
    ensures !r.1 ==> r.0 == p
  {
    if 0 <= slot < |p.entries| then (p.(entries := RemoveAt(p.entries, slot)), true)
    else (p, false)
  }

  /**
   * firstRecord/getFirst: the first entry and its slot; on an empty page the
   * caller's locator `rid` is left as it was.
   */
  function GetFirst(p: SortedPage, rid: nat): (r: (Option<KeyDataEntry>, nat))
    ensures r.0.None? <==> p.entries == []
    ensures r.0.None? ==> r.1 == rid
    ensures r.0.Some? ==> r.1 == 0 && r.0.value == p.entries[0]
  {
    if |p.entries| > 0 then (Some(p.entries[0]), 0) else (None, rid)
  }

  /**
   * nextRecord/getNext: the entry in the slot after `rid`, moving `rid` to
   * it; none once no slot follows, and then `rid` is left as it was.
   */
  function GetNext(p: SortedPage, rid: nat): (r: (Option<KeyDataEntry>, nat))
    ensures r.0.None? <==> rid + 1 >= |p.entries|
    ensures r.0.None? ==> r.1 == rid
    ensures r.0.Some? ==> r.1 == rid + 1 && r.0.value == p.entries[rid + 1]
  {
    if rid + 1 < |p.entries| then (Some(p.entries[rid + 1]), rid + 1) else (None, rid)
  }

  /** The cursor after getFirst followed by `k` calls of getNext. */
  function Walk(p: SortedPage, k: nat): (Option<KeyDataEntry>, nat)
  {
    if k == 0 then GetFirst(p, 0) else GetNext(p, Walk(p, k - 1).1)
  }

  /** Iterating a page with getFirst/getNext visits every entry once, in slot order, then stops. */
  lemma {:induction false} WalkVisitsInOrder(p: SortedPage, k: nat)
    requires k <= |p.entries|
    ensures k < |p.entries| ==> Walk(p, k) == (Some(p.entries[k]), k)
    ensures k == |p.entries| ==> Walk(p, k).0 == None
  {
    if k > 0 {
      WalkVisitsInOrder(p, k - 1);
    }
  }
}
