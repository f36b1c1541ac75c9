/** Identities shared by the record model, the catalog and the buffer pool. */
module Ids {

  /** A transaction's identity; only equality is used. */
  datatype TransactionId = TransactionId(id: int)

  /** A page's identity: its table and its number within the table's file. */
  datatype PageId = PageId(tableId: int, pageNo: int)

  /** A tuple's on-disk address: a page and a slot within it. */
  datatype RecordId = RecordId(pageId: PageId, tupleNo: int)
}
