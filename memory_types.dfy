/**
 * The closed memory-seeding types the workflow core produces: a memory slot holds either
 * one entry or a page (an ordered stack) of entries, and an entry is raw text or a JSON value.
 */
module MemoryTypes {
  import JsonModel

  /** Keys of memory slots (and ids of tasks). */
  type ID = string

  datatype Entry =
    | String(text: string)
    | Json(value: JsonModel.Value)

  datatype MemoryInputType =
    | Entry(entry: Entry)
    | Page(entries: seq<Entry>)
}
