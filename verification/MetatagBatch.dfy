/** What the two batch updates share. */
module MetatagBatch {
  const MAX_PER_BATCH: nat := 100

  type Tags = map<string, string>

  /** The columns an update statement selects the rows of a table by. */
  datatype RowKey = RowKey(entityId: int, revisionId: int, langcode: string)

  /** The progress reported by an unfinished update. */
  function Ratio(part: nat, whole: nat): (r: real)
    requires whole > 0
    ensures 0.0 <= r && (part < whole ==> r < 1.0)
    ensures r * whole as real == part as real
  {
    part as real / whole as real
  }
}
