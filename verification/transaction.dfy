/** The transaction record the repository persists. Only the parts the
    repository reads or writes are modelled; the rest of the coordinator's
    state is carried as an opaque payload. */
module Transactions {
  import opened Basics

  /** A `javax.transaction.xa.Xid`: the globally unique transaction identity. */
  datatype Xid = Xid(formatId: int, globalTransactionId: Bytes, branchQualifier: Bytes)

  /** A transaction record. `lastUpdateTime` is a `java.util.Date` read as
      milliseconds since the epoch; `payload` stands for participants,
      status, retry count and everything else the repository never reads. */
  datatype Transaction = Transaction(xid: Xid, version: i64, lastUpdateTime: int, payload: Bytes)

  /** `version + 1` on a Java `long`: two's-complement addition, so the
      largest version wraps round to the smallest. */
  function NextVersion(v: i64): (r: i64)
    ensures (r as int - v as int - 1) % 0x1_0000_0000_0000_0000 == 0
    ensures v as int < I64_MAX ==> r as int == v as int + 1
    ensures v as int == I64_MAX ==> r as int == I64_MIN
  {
    if v == 0x7FFF_FFFF_FFFF_FFFF then -0x8000_0000_0000_0000 else v + 1
  }
}
