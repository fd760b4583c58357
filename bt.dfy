/**
 * Shared vocabulary of the B+-tree: page identifiers, record locators,
 * keys, entries and node kinds.
 *
 * Keys are modelled as mathematical integers with their usual order; the
 * key classes and their byte encodings are not part of this model.
 */
module BT {

  datatype Option<+T> = None | Some(value: T)

  /** A page identifier. INVALID_PAGE stands for "no page" in sibling fields. */
  type PageId = int

  const INVALID_PAGE: PageId := -1

  /** Key domain tags stored in the header page (AttrType). */
  const ATTR_STRING: int := 0
  const ATTR_INTEGER: int := 1

  type Key = int

  /** A record locator: the page and slot of a data record outside the index. */
  datatype Rid = Rid(pageNo: PageId, slotNo: int)

  /** Payload of an entry: a record locator on leaves, a child page on index pages. */
  datatype DataType = LeafData(rid: Rid) | IndexData(pageNo: PageId)

  datatype KeyDataEntry = KeyDataEntry(key: Key, data: DataType)

  datatype NodeType = LeafNode | IndexNode

  /** Run-time class of a key handed to BTreeFile.insert. */
  datatype KeyKind = IntegerKind | StringKind | OtherKind

  /**
   * A key as the caller hands it to the tree: its class, its value in the
   * key order and its encoded length in bytes (what BT.getKeyLength reports).
   */
  datatype KeyClass = KeyClass(kind: KeyKind, value: Key, length: int)
}
