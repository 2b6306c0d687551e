/** `journal/transaction.rs`: the bookkeeping record of an open journal transaction. */
module Transaction {
  import opened Ints

  datatype TransactionType = Read | Write

  /**
   * `TransactionState`: the kind of transaction, the journal offset of each page written
   * in it, and the journal's frame count and database file size when it began.
   */
  datatype TransactionState = TransactionState(
    ty: TransactionType,
    offsetMap: map<u32, u64>,
    frameCount: u32,
    dbFileSize: u64)

  /** `TransactionState::new`: no page written yet; the other fields as given. */
  function New(ty: TransactionType, frameCount: u32, dbFileSize: u64): (s: TransactionState)
    ensures s.ty == ty && s.frameCount == frameCount && s.dbFileSize == dbFileSize
    ensures s.offsetMap == map[]
  {
    TransactionState(ty, map[], frameCount, dbFileSize)
  }
}
