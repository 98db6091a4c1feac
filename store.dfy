/**
 * The retrieval index as the query layer sees it: a full scan (the `db._collection.get(...)`
 * call) yields the stored chunks in the index's own
 * order, each with its text and its metadata dictionary (or none).
 */
module Store {
  import opened Wrappers

  /** A chunk's metadata: the string-valued fields written at ingestion. */
  type Metadata = map<string, string>

  /** One stored chunk: its text and its metadata. */
  datatype Record = Record(content: string, metadata: Option<Metadata>)

  /** `m.get(key, default)`. */
  function Get(m: Metadata, key: string, default: string): string {
    if key in m then m[key] else default
  }

  /** The scans' `if not metadata: continue` lets a record through only when its
      metadata is present and not empty. */
  predicate HasMetadata(r: Record) {
    r.metadata.Some? && r.metadata.value != map[]
  }

  /** `metadata.get(key, default)` for a record (`default` when there is none). */
  function Meta(r: Record, key: string, default: string): string {
    if r.metadata.Some? then Get(r.metadata.value, key, default) else default
  }

  /** `metadata.get("patient_id", "")`. */
  function PatientId(r: Record): string {
    Meta(r, "patient_id", "")
  }
}
