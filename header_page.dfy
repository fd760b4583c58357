/**
 * BTreeHeaderPage: the one header page of a tree. It keeps three values in
 * three distinct fields of its underlying page: the root page id in the
 * "next page" field, the key domain in the "previous page" field, and the
 * maximum key length as the length of slot 1. It also caches the three
 * values in fields of its own, which the getters never read.
 */
module BTreeHeaderPage {
  import opened BT

  /** Java's (short) conversion: keep the low 16 bits as a signed value. */
  function ShortCast(v: int): (r: int)
    ensures -0x8000 <= r < 0x8000
    ensures (v - r) % 0x1_0000 == 0
  {
    (v + 0x8000) % 0x1_0000 - 0x8000
  }

  /** A value survives the conversion exactly when it is in the range of a short. */
  lemma ShortCastKeepsShorts(v: int)
    ensures ShortCast(v) == v <==> -0x8000 <= v < 0x8000
  {
    if -0x8000 <= v < 0x8000 {
      assert 0 <= v + 0x8000 < 0x1_0000;
    }
  }

  class BTreeHeaderPage {
    // Cached copies (rootPageId, keyType, maxKeyFieldLength of the Java class).
    var rootPageId: int
    var keyType: int
    var maxKeyFieldLength: int

    // The fields of the underlying page that hold the three values.
    var nextPage: PageId
    var prevPage: PageId
    var slot1Length: int

    /** A freshly initialised header page: both sibling fields invalid, slot 1 empty. */
    constructor ()
      ensures nextPage == INVALID_PAGE && prevPage == INVALID_PAGE && slot1Length == 0
      ensures rootPageId == 0 && keyType == 0 && maxKeyFieldLength == 0
    {
      rootPageId, keyType, maxKeyFieldLength := 0, 0, 0;
      nextPage, prevPage, slot1Length := INVALID_PAGE, INVALID_PAGE, 0;
    }

    /** get_rootId: the root page id, read from the "next page" field. */
    function GetRootId(): PageId
      reads this
    {
      nextPage
    }

    /** get_keyType: the key domain, read from the "previous page" field as a short. */
    function GetKeyType(): (r: int)
      reads this
      ensures -0x8000 <= r < 0x8000
      ensures -0x8000 <= prevPage < 0x8000 ==> r == prevPage
    {
      ShortCast(prevPage)
    }

    /** getMaxKeyFieldLength: the length of slot 1. */
    function GetMaxKeyFieldLength(): int
      reads this
    {
      slot1Length
    }

    /**
     * The getters read the page alone: two header pages whose page fields
     * agree answer alike, whatever their cached copies hold.
     */
    static lemma GettersReadThePage(a: BTreeHeaderPage, b: BTreeHeaderPage)
      requires a.nextPage == b.nextPage && a.prevPage == b.prevPage && a.slot1Length == b.slot1Length
      ensures a.GetRootId() == b.GetRootId() && a.GetKeyType() == b.GetKeyType()
      ensures a.GetMaxKeyFieldLength() == b.GetMaxKeyFieldLength()
    {
    }

    /** setRootPageId: get_rootId returns `id` afterwards; the other two values are untouched. */
    method SetRootPageId(id: PageId)
      modifies this
      ensures GetRootId() == id && rootPageId == id
      ensures prevPage == old(prevPage) && slot1Length == old(slot1Length)
      ensures GetKeyType() == old(GetKeyType()) && GetMaxKeyFieldLength() == old(GetMaxKeyFieldLength())
      ensures keyType == old(keyType) && maxKeyFieldLength == old(maxKeyFieldLength)
    {
      rootPageId := id;
      nextPage := id;
    }

    /** setKeyType: get_keyType returns the short conversion of `t`; the other two values are untouched. */
    method SetKeyType(t: int)
      modifies this
      ensures GetKeyType() == ShortCast(t) && keyType == t && prevPage == t
      ensures nextPage == old(nextPage) && slot1Length == old(slot1Length)
      ensures GetRootId() == old(GetRootId()) && GetMaxKeyFieldLength() == old(GetMaxKeyFieldLength())
      ensures rootPageId == old(rootPageId) && maxKeyFieldLength == old(maxKeyFieldLength)
    {
      keyType := t;
      prevPage := t;
    }

    /** setMaxKeyFieldLength: slot 1 gets length `len`; the other two values are untouched. */
    method SetMaxKeyFieldLength(len: int)
      modifies this
      ensures GetMaxKeyFieldLength() == len && maxKeyFieldLength == len
      ensures nextPage == old(nextPage) && prevPage == old(prevPage)
      ensures GetRootId() == old(GetRootId()) && GetKeyType() == old(GetKeyType())
      ensures rootPageId == old(rootPageId) && keyType == old(keyType)
    {
      maxKeyFieldLength := len;
      slot1Length := len;
    }

    /**
     * loadData: refresh the cached copies from the page. The cached key type
     * is the raw field, without the short conversion get_keyType applies.
     */
    method LoadData()
      modifies this
      ensures rootPageId == GetRootId() && keyType == prevPage && maxKeyFieldLength == GetMaxKeyFieldLength()
      ensures GetKeyType() == ShortCast(keyType)
      ensures nextPage == old(nextPage) && prevPage == old(prevPage) && slot1Length == old(slot1Length)
    {
      rootPageId := nextPage;
      keyType := prevPage;
      maxKeyFieldLength := slot1Length;
    }

    /**
     * insertAll(root, type, size): the three getters return those values, the
     * key type through the short conversion (so unchanged for any short).
     */
    method InsertAll(rootPageID: PageId, keytype: int, keysize: int)
      modifies this
      ensures GetRootId() == rootPageID && GetKeyType() == ShortCast(keytype) && GetMaxKeyFieldLength() == keysize
      ensures rootPageId == rootPageID && keyType == keytype && maxKeyFieldLength == keysize
    {
      SetRootPageId(rootPageID);
      SetKeyType(keytype);
      SetMaxKeyFieldLength(keysize);
    }
  }
}
