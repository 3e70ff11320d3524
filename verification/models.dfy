/**
  The document record. Creating one hashes the uploaded bytes, draws a
  random identifier and reads the clock; none of that is modelled, so a
  document is simply a value carrying those results. Only `hash` takes part
  in the ledger's logic.
 */
module Models {
  import opened Optional

  datatype Document = Document(
    id: string,
    filename: string,
    hash: string,
    timestamp: nat,
    blockIndex: Option<nat>)
}
