# jsonstore `Store[T]` in Dafny

This project models `Store[T]`, the generic key-value store of the Go package
`jsonstore`. A store keeps a mapping from string key to that key's *encoded*
value (`map[string]json.RawMessage`) and is bound to one backing file. Its
operations are the following:

- `NewStore` loads the mapping from the file, creating the file as `{}` when it is missing.
- `Set` encodes one value, inserts or overwrites its entry, and persists the whole mapping.
- `Get` looks one entry up and decodes it.
- `Delete` removes one entry, which need not be present, and persists the whole mapping.
- `Keys` returns a snapshot of the key set.
- `persist` writes the document to `path + ".tmp"` and renames that file over `path`.

Each operation is a pure transition function over an immutable state: the
`Store` (path plus entries) and an abstract `Disk` (a map from path to bytes).

Modules:

- `Errors` (`errors.dfy`) holds the error taxonomy: `NotFound` (the package's `ErrNotFound`), `EncodeError`, `DecodeError` and `IoError(op)`. It also holds `Outcome`, the Go `error` result, and `Result`.
- `Codecs` (`codec.dfy`) holds the two JSON codecs as parameters. `Codec<T>` stands for `json.Marshal`/`json.Unmarshal` of the element type plus its zero value. `DocCodec` stands for `json.MarshalIndent`/`json.Unmarshal` of a whole mapping. The laws the encoding library is trusted to obey are predicates (`ValueRoundTrip`, `DocumentRoundTrip`, `EmptyDocumentDecodes`), which lemmas take as preconditions.
- `FileSystem` (`filesystem.dfy`) holds the disk and the three OS calls: `ReadFile`, `WriteFile` and `Rename`. Each call takes its failure as a parameter, so every error path is an input the laws range over. A failed write may leave residue in its target, as a truncating `os.WriteFile` can.
- `JsonStore` (`store.dfy`) holds the store's state and operations.
- `StoreLaws` (`laws.dfy`) holds laws relating several operations.
- `Sequential` (`sequential.dfy`) holds runs of several `Set`s. These runs carry the content of the concurrent unique-key test and of the delete test.

A reload reproduces the persisted mapping up to `Equivalent`, not byte for byte.
`Equivalent` means the same keys, with each entry decoding to the same value.
`json.MarshalIndent` re-indents every raw entry it writes, so the bytes read
back for a key can differ from the compact bytes `json.Marshal` produced.
Only the values those bytes denote are preserved. `Get` cannot tell
equivalent stores apart (`EquivalentStoresAgree`).

A failed persist inside `Set` or `Delete` (store.go:64-65, 89-90) leaves the
in-memory mapping ahead of the backing file. The contracts of `Set` and
`Delete` state that case: the mapping holds the change while the backing file
keeps its old contents.

`Get` and `Keys` return no new state, so they leave the store unchanged by
construction. `Keys` returns a fresh sequence, so later mutations cannot
affect a snapshot.

## Model

| member | source | states |
|---|---|---|
| JsonStore.NewStore | store.go:18-42 | A read failure is an error and leaves the disk as it was. A missing file is created holding `{}` and yields empty entries. The store is returned exactly when that write succeeds; otherwise the error is `IoError` of the write. A zero-length file yields empty entries and is not rewritten. Any other file yields exactly its decoded mapping, or `DecodeError` when it does not decode. The store is bound to the given path |
| FileSystem.ReadFile | store.go:30-31 | A failing read reports a read failure. A read that does not fail returns the file's bytes when the path exists and reports a missing file otherwise. Returned bytes are exactly the file's contents |
| FileSystem.WriteFile | store.go:50 | A write succeeds exactly when no fault occurs, and then leaves the given bytes at the path. A failure is `IoError` of the write. No other path changes, whether the write succeeds or fails |
| FileSystem.Rename | store.go:53 | A rename succeeds exactly when it does not fail and the source exists. Success moves the source's bytes to the destination and removes the source. A failure is `IoError` of the rename and leaves the disk unchanged. No path other than source and destination changes |
| JsonStore.TmpPath | store.go:49 | The staging path is never the backing path itself |
| JsonStore.Persist | store.go:44-54 | Succeeds exactly when the mapping encodes and both the staging write and the rename succeed. Success leaves the encoded document at the backing path and no staging file. A failure leaves the backing path's contents unchanged. An encoding failure is `EncodeError` and touches nothing. A failed staging write is `IoError` of the write, and a failed rename is `IoError` of the rename. No file other than the backing and staging files changes |
| JsonStore.Set | store.go:56-66 | An encoding failure returns `EncodeError` with store and disk unchanged. Otherwise `key` holds the value's encoding, the key set becomes the old one plus `key`, and every other entry is unchanged. Once the value encodes, `Set` succeeds exactly when the new mapping encodes and the staging write and rename both succeed. A document encoding failure is `EncodeError`, a failed write is `IoError` of the write, and a failed rename is `IoError` of the rename. A failed persist keeps the in-memory change but leaves the backing file's old contents. A success leaves the backing file holding the encoded new mapping and no staging file. No file other than the backing and staging files changes |
| JsonStore.Get | store.go:68-83 | `ErrNotFound` is returned exactly when the key is absent. Every error comes with the zero value. Success means the key's entry decodes to the returned value. A present key fails only with `DecodeError`, when its entry does not decode |
| JsonStore.Delete | store.go:85-91 | The key set loses `key` and every remaining entry is unchanged. An absent key leaves the store unchanged, but the mapping is still persisted. `Delete` succeeds exactly when the remaining mapping encodes and the staging write and rename both succeed. Each failure carries the same error as in `Persist` and leaves the backing file's old contents. A success leaves the encoded remaining mapping at the backing path and no staging file. No file other than the backing and staging files changes |
| JsonStore.Keys | store.go:93-102 | The error is always nil. The snapshot lists every key of the mapping, each exactly once, and nothing else, so its length is the mapping's size |
| StoreLaws.SetThenGet | store.go:56-83 | After a `Set` whose encoding succeeded, `Get` on that key returns the value set, whether or not the persist succeeded (value codec round trip assumed) |
| StoreLaws.SetLeavesOtherKeys | store.go:64 | `Set(key, v)` does not change what `Get` returns for any other key |
| StoreLaws.SetOverwrites | store.go:64 | A second `Set` on a key leaves the same entries as that `Set` alone, so the first value is fully overwritten |
| StoreLaws.DeleteThenGet | store.go:68-91 | After `Delete(key)`, `Get(key)` returns `ErrNotFound` with the zero value |
| StoreLaws.DeleteLeavesOtherKeys | store.go:89 | `Delete(key)` does not change what `Get` returns for any other key |
| StoreLaws.DeleteUndoesSet | store.go:56-91 | Deleting a key that a `Set` just introduced restores the exact previous entries |
| StoreLaws.DeleteIdempotent | store.go:85-91 | A second `Delete` of the same key leaves the entries unchanged |
| StoreLaws.EquivalentStoresAgree | store.go:68-83 | Stores whose entries are equivalent return the same `Get` result for every key |
| StoreLaws.ReloadAfterPersist | store.go:29-54 | After a successful persist, a fresh `NewStore` on the same path succeeds and does not rewrite the file. Its entries are equivalent to the persisted ones (document round trip assumed) |
| StoreLaws.ReloadAfterSet | store.go:29-66 | After a fully successful `Set(key, v)`, a store reconstructed from the same path returns `v` for `key` and agrees with the old store on every key |
| StoreLaws.ReloadAfterDelete | store.go:29-91 | After a fully successful `Delete(key)`, a store reconstructed from the same path reports `ErrNotFound` for `key` |
| StoreLaws.BootstrapThenReload | store.go:29-40 | `NewStore` on a missing path creates a file that a second `NewStore` loads as an empty store, without rewriting it |
| Sequential.RunSets | store.go:56-66 | A run of `Set`s leaves the entries given by applying each write to the mapping in order, whatever faults the disk produced along the way |
| Sequential.RunOutcomes | store_test.go:92-94 | Lists one error per `Set` of a run, in call order; the first is the error of the run's first `Set` |
| Sequential.RunOutcomeAt | store.go:56-66 | The i-th `Set` of a run whose value encodes succeeds exactly when the mapping after the first i + 1 writes encodes as a document and that call's write and rename go through |
| Sequential.WrittenAt | store.go:64 | With distinct keys, each written key holds its own write's encoding, or its old entry if the value did not encode. Unwritten keys keep their old entries |
| Sequential.WrittenOrderIrrelevant | store_test.go:75-111 | Writes to distinct keys commute: any permutation of them yields the same entries |
| Sequential.RunOrderIrrelevant | store_test.go:75-111 | Any two serialisations of the same distinct-key `Set` calls, under any disk faults, leave equal stores. This is the sequential content of the concurrent unique-key writers |
| Sequential.UniqueWritersReadBack | store_test.go:100-109 | After `Set`s on distinct keys whose values encode, every key's `Get` returns its own writer's value |
| Sequential.UniqueWritersSucceed | store_test.go:92-94 | Take a run of `Set`s in which the disk never fails, every value encodes, and every mapping passed through encodes. Every `Set` in that run succeeds |
| Sequential.DeleteScenario | store_test.go:113-133 | Create on a missing path, then `Set("one")`, `Set("two")` and `Delete("one")`. After the two sets the key set is exactly {"one", "two"}. Afterwards "one" is not found and "two" reads back. With no disk faults, the delete succeeds exactly when the remaining mapping encodes |

## Left out

- The `sync.RWMutex` and real goroutines are not modelled. Each operation is one atomic transition; the lock serialises writers, so concurrent `Set`s are covered as some sequential order of them (`Sequential.RunOrderIrrelevant`).
- The behaviour of `encoding/json` is not modelled: the formatting of `MarshalIndent`, the field order in the file, and which Go values fail to encode. Both codecs are parameters, and their laws are stated as predicates that the lemmas assume.
- A `null` document is not modelled. For `null`, `json.Unmarshal` sets the map to nil, which the abstract document decoder cannot express. A later `Set` on such a store would assign into a nil map.
- `json.Unmarshal` merges into the existing map rather than replacing it. This is not modelled separately: `NewStore` always loads into a fresh empty map, so the merge equals the decoded document.
- File permissions (`0o644`) and the kinds of OS errors are not modelled. Every OS failure is `IoError` tagged with the call that failed.
- The order of `Keys()` is not modelled, because Go map iteration order is unspecified. The contract states set equality and no duplicates.
- Keys are modelled as Dafny strings, which hold only Unicode scalar values, while Go keys are arbitrary byte strings. `json.MarshalIndent` replaces invalid UTF-8 in a map key with U+FFFD. So a key that is not valid UTF-8 comes back renamed from a reload, and two such keys can collapse into one field. `StoreLaws.ReloadAfterPersist`, `StoreLaws.ReloadAfterSet` and `StoreLaws.ReloadAfterDelete` hold for the real program only when every key is valid UTF-8.
- Go type-parameter instantiation is replaced by one abstract element type `T` with its codec.
