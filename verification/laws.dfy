/** Laws of the store that relate several operations: the set/get round
    trip, non-interference between keys, delete as the inverse of set, and
    a fresh `NewStore` on the same path reproducing what was persisted. */
module StoreLaws {
  import opened Errors
  import opened Codecs
  import opened FileSystem
  import opened JsonStore

  /** After `Set(key, v)` whose encoding succeeded, `Get(key)` yields `v`,
      whether or not the persist that followed succeeded. */
  lemma SetThenGet<T(!new)>(c: Codec<T>, dc: DocCodec, s: Store, d: Disk, f: Faults, key: string, v: T)
    requires ValueRoundTrip(c)
    requires c.encode(v).Some?
    ensures Get(c, Set(c, dc, s, d, f, key, v).store, key) == Fetched(v, Pass)
  {
  }

  /** `Set(key, v)` is invisible to `Get` on every other key. */
  lemma SetLeavesOtherKeys<T>(c: Codec<T>, dc: DocCodec, s: Store, d: Disk, f: Faults, key: string, v: T, other: string)
    requires other != key
    ensures Get(c, Set(c, dc, s, d, f, key, v).store, other) == Get(c, s, other)
  {
  }

  /** A second `Set` on the same key replaces the first entirely. */
  lemma SetOverwrites<T>(c: Codec<T>, dc: DocCodec, s: Store, d: Disk, f1: Faults, f2: Faults, key: string, v1: T, v2: T)
    requires c.encode(v2).Some?
    ensures var first := Set(c, dc, s, d, f1, key, v1);
            Set(c, dc, first.store, first.disk, f2, key, v2).store == Set(c, dc, s, d, f2, key, v2).store
  {
  }

  /** After `Delete(key)`, `Get(key)` reports `ErrNotFound` with the zero value. */
  lemma DeleteThenGet<T>(c: Codec<T>, dc: DocCodec, s: Store, d: Disk, f: Faults, key: string)
    ensures Get(c, Delete(dc, s, d, f, key).store, key) == Fetched(c.zero, Fail(NotFound))
  {
  }

  /** `Delete(key)` is invisible to `Get` on every other key. */
  lemma DeleteLeavesOtherKeys<T>(c: Codec<T>, dc: DocCodec, s: Store, d: Disk, f: Faults, key: string, other: string)
    requires other != key
    ensures Get(c, Delete(dc, s, d, f, key).store, other) == Get(c, s, other)
  {
  }

  /** Deleting a key that a `Set` just introduced restores the previous entries. */
  lemma DeleteUndoesSet<T>(c: Codec<T>, dc: DocCodec, s: Store, d: Disk, f1: Faults, f2: Faults, key: string, v: T)
    requires key !in s.data
    ensures var st := Set(c, dc, s, d, f1, key, v);
            Delete(dc, st.store, st.disk, f2, key).store == s
  {
  }

  /** Deleting twice leaves the same entries as deleting once; the second
      call still persists. */
  lemma DeleteIdempotent(dc: DocCodec, s: Store, d: Disk, f1: Faults, f2: Faults, key: string)
    ensures var once := Delete(dc, s, d, f1, key);
            Delete(dc, once.store, once.disk, f2, key).store == once.store
  {
  }

  /** Equivalent entries are indistinguishable through `Get`. */
  lemma EquivalentStoresAgree<T>(c: Codec<T>, s1: Store, s2: Store, key: string)
    requires Equivalent(c, s1.data, s2.data)
    ensures Get(c, s1, key) == Get(c, s2, key)
  {
  }

  /** After a successful persist, a fresh `NewStore` on the same path (whose
      read succeeds) returns entries equivalent to the persisted ones and
      does not rewrite the file. */
  lemma ReloadAfterPersist<T>(c: Codec<T>, dc: DocCodec, s: Store, d: Disk, f: Faults, f2: Faults)
    requires DocumentRoundTrip(c, dc)
    requires Persist(dc, s, d, f).outcome.Pass?
    requires !f2.readFails
    ensures var e := Persist(dc, s, d, f);
            var o := NewStore(dc, s.path, e.disk, f2);
            && o.result.Ok?
            && o.disk == e.disk
            && Equivalent(c, o.result.value.data, s.data)
  {
  }

  /** Persistence survives reconstruction: after a fully successful
      `Set(key, v)`, a new store on the same path returns `v` for `key`
      and agrees with the old store on every key. */
  lemma ReloadAfterSet<T(!new)>(c: Codec<T>, dc: DocCodec, s: Store, d: Disk, f: Faults, f2: Faults, key: string, v: T)
    requires WellBehaved(c, dc)
    requires Set(c, dc, s, d, f, key, v).outcome.Pass?
    requires !f2.readFails
    ensures var st := Set(c, dc, s, d, f, key, v);
            var o := NewStore(dc, s.path, st.disk, f2);
            && o.result.Ok?
            && Get(c, o.result.value, key) == Fetched(v, Pass)
            && forall k :: Get(c, o.result.value, k) == Get(c, st.store, k)
  {
  }

  /** After a fully successful `Delete(key)`, a new store on the same path
      reports `ErrNotFound` for `key`. */
  lemma ReloadAfterDelete<T>(c: Codec<T>, dc: DocCodec, s: Store, d: Disk, f: Faults, f2: Faults, key: string)
    requires DocumentRoundTrip(c, dc)
    requires Delete(dc, s, d, f, key).outcome.Pass?
    requires !f2.readFails
    ensures var st := Delete(dc, s, d, f, key);
            var o := NewStore(dc, s.path, st.disk, f2);
            && o.result.Ok?
            && Get(c, o.result.value, key) == Fetched(c.zero, Fail(NotFound))
  {
  }

  /** Empty-store bootstrap: `NewStore` on a missing path creates a file that
      a second `NewStore` loads as an empty store. */
  lemma BootstrapThenReload(dc: DocCodec, path: Path, d: Disk, f: Faults, f2: Faults)
    requires EmptyDocumentDecodes(dc)
    requires path !in d.files
    requires !f.readFails && f.write.WriteOk?
    requires !f2.readFails
    ensures var o := NewStore(dc, path, d, f);
            && o.result.Ok?
            && var o2 := NewStore(dc, path, o.disk, f2);
            && o2 == Opened(Ok(Store(path, map[])), o.disk)
  {
  }
}
