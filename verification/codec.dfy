/** The JSON codecs the store relies on, as parameters.

    The store never looks inside an encoded value: it keeps `json.Marshal`'s
    bytes for each entry, hands the whole map to `json.MarshalIndent` when it
    persists, and reads a document back with `json.Unmarshal`. The model
    therefore takes both codecs as values of the datatypes below, and the
    laws the encoding library is trusted to obey are predicates that lemmas
    take as preconditions. */
module Codecs {
  import opened Errors

  type Bytes = seq<bv8>

  /** The in-memory mapping from key to encoded entry (`map[string]json.RawMessage`). */
  type Entries = map<string, Bytes>

  /** The bytes `m` holds under `k`, or `None` when `k` is absent. Used both
      for a store's entries and for the files of a disk. */
  function Lookup(m: map<string, Bytes>, k: string): Option<Bytes>
  {
    if k in m then Some(m[k]) else None
  }

  /** The codec of the element type `T`: `json.Marshal` / `json.Unmarshal`,
      plus the zero value `Get` returns beside an error. */
  datatype Codec<!T> = Codec(encode: T -> Option<Bytes>, decode: Bytes -> Option<T>, zero: T)

  /** The codec of a whole backing-file document: `json.MarshalIndent` of the
      mapping and `json.Unmarshal` of a file into a mapping. */
  datatype DocCodec = DocCodec(encode: Entries -> Option<Bytes>, decode: Bytes -> Option<Entries>)

  /** The two bytes `{}` the store writes when it creates its file. */
  const EmptyDocument: Bytes := [0x7B, 0x7D]

  /** Every value the codec manages to encode decodes back to itself. */
  ghost predicate ValueRoundTrip<T(!new)>(c: Codec<T>)
  {
    forall v :: c.encode(v).Some? ==> c.decode(c.encode(v).value) == Some(v)
  }

  /** Two mappings hold the same keys, and each key's entries decode to the
      same thing. This is the sense in which a reloaded document equals the
      mapping that was written: `MarshalIndent` re-indents every raw entry,
      so the bytes may differ while the values they denote do not. */
  ghost predicate Equivalent<T>(c: Codec<T>, m1: Entries, m2: Entries)
  {
    && m1.Keys == m2.Keys
    && forall k :: k in m1 && k in m2 ==> c.decode(m1[k]) == c.decode(m2[k])
  }

  /** The document codec never produces an empty file, and a document it
      produced decodes to a mapping equivalent to the one encoded. */
  ghost predicate DocumentRoundTrip<T>(c: Codec<T>, dc: DocCodec)
  {
    forall m :: dc.encode(m).Some? ==>
      && |dc.encode(m).value| > 0
      && dc.decode(dc.encode(m).value).Some?
      && Equivalent(c, dc.decode(dc.encode(m).value).value, m)
  }

  /** The document `{}` decodes to the empty mapping. */
  ghost predicate EmptyDocumentDecodes(dc: DocCodec)
  {
    dc.decode(EmptyDocument) == Some(map[])
  }

  /** Everything the store's laws assume of the JSON library. */
  ghost predicate WellBehaved<T(!new)>(c: Codec<T>, dc: DocCodec)
  {
    && ValueRoundTrip(c)
    && DocumentRoundTrip(c, dc)
    && EmptyDocumentDecodes(dc)
  }
}
