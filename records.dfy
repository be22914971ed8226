/**
 * The shared data model of the store package: the stored service record and
 * the "latest observation wins" acceptance rule that every store's Upsert
 * promises. Go strings are byte strings; here each char stands for one byte.
 */
module Records {
  import opened Wrappers

  /** Go's uint32. */
  type Uint32 = x: int | 0 <= x < 0x1_0000_0000

  /** Go's int64. Timestamps are only compared, never computed with. */
  type Int64 = x: int | -0x8000_0000_0000_0000 <= x < 0x8000_0000_0000_0000

  /**
   * One stored scan result. UpdatedAt, the wall-clock time of the write, is
   * not part of the model: it never takes part in any decision.
   */
  datatype ServiceRecord = ServiceRecord(
    ip: string,
    port: Uint32,
    service: string,
    lastTimestamp: Int64,
    response: string)

  /**
   * The Upsert contract: an incoming record is written when there is no
   * stored record for its key, or when its timestamp is strictly greater
   * than the stored one. Equal timestamps keep what is stored.
   */
  predicate Supersedes(incoming: ServiceRecord, existing: Option<ServiceRecord>): (b: bool)
    ensures existing.None? ==> b
    ensures b && existing.Some? ==> incoming.lastTimestamp != existing.value.lastTimestamp
    ensures existing == Some(incoming) ==> !b
  {
    existing.None? || incoming.lastTimestamp > existing.value.lastTimestamp
  }
}
