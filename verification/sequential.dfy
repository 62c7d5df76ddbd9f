/** Runs of several operations. The store's lock serialises concurrent
    writers, so concurrent `Set`s on distinct keys amount to some sequential
    order of the same `Set`s; the laws here show that every such order ends
    in the same entries, and that every writer's value can then be read back. */
module Sequential {
  import opened Errors
  import opened Codecs
  import opened FileSystem
  import opened JsonStore

  /** One caller's `Set(key, value)`. */
  datatype Write<T> = Write(key: string, value: T)

  ghost predicate DistinctKeys<T>(ws: seq<Write<T>>)
  {
    forall i, j :: 0 <= i < j < |ws| ==> ws[i].key != ws[j].key
  }

  /** The effect of one `Set` on the entries alone: the disk plays no part
      in what the mapping becomes. */
  function Apply<T>(c: Codec<T>, m: Entries, w: Write<T>): Entries
  {
    match c.encode(w.value)
    case None => m
    case Some(b) => m[w.key := b]
  }

  /** The entries after applying `ws` in order. */
  function Written<T>(c: Codec<T>, m: Entries, ws: seq<Write<T>>): Entries
    decreases |ws|
  {
    if |ws| == 0 then m else Written(c, Apply(c, m, ws[0]), ws[1..])
  }

  /** The calls `Set(ws[0])`, `Set(ws[1])`, ... one after another, the i-th
      meeting the disk faults `fs[i]`. The outcome is that of the last call. */
  function RunSets<T>(c: Codec<T>, dc: DocCodec, s: Store, d: Disk, ws: seq<Write<T>>, fs: seq<Faults>): (r: Step)
    requires |fs| == |ws|
    ensures r.store.path == s.path
    ensures r.store.data == Written(c, s.data, ws)
    decreases |ws|
  {
    if |ws| == 0 then Step(Pass, s, d)
    else
      var st := Set(c, dc, s, d, fs[0], ws[0].key, ws[0].value);
      if |ws| == 1 then st
      else RunSets(c, dc, st.store, st.disk, ws[1..], fs[1..])
  }

  /** The error of every call in the run `RunSets(c, dc, s, d, ws, fs)`, in order. */
  function RunOutcomes<T>(c: Codec<T>, dc: DocCodec, s: Store, d: Disk, ws: seq<Write<T>>, fs: seq<Faults>): (r: seq<Outcome>)
    requires |fs| == |ws|
    ensures |r| == |ws|
    ensures |ws| > 0 ==> r[0] == Set(c, dc, s, d, fs[0], ws[0].key, ws[0].value).outcome
    decreases |ws|
  {
    if |ws| == 0 then []
    else
      var st := Set(c, dc, s, d, fs[0], ws[0].key, ws[0].value);
      [st.outcome] + RunOutcomes(c, dc, st.store, st.disk, ws[1..], fs[1..])
  }

  /** The entries after the first `i + 1` writes, reached from the second write on. */
  lemma WrittenPrefix<T>(c: Codec<T>, m: Entries, ws: seq<Write<T>>, i: nat)
    requires i < |ws|
    ensures Written(c, m, ws[..i + 1]) == Written(c, Apply(c, m, ws[0]), ws[1..][..i])
  {
    assert ws[..i + 1][1..] == ws[1..][..i];
  }

  /** The i-th `Set` of a run, whose value encodes, succeeds exactly when the
      entries after the first i + 1 writes encode as a document and the disk
      lets both its write and its rename through. */
  lemma {:induction false} RunOutcomeAt<T>(c: Codec<T>, dc: DocCodec, s: Store, d: Disk, ws: seq<Write<T>>, fs: seq<Faults>, i: nat)
    requires |fs| == |ws|
    requires i < |ws|
    requires c.encode(ws[i].value).Some?
    ensures RunOutcomes(c, dc, s, d, ws, fs)[i].Pass? <==>
              dc.encode(Written(c, s.data, ws[..i + 1])).Some? && fs[i].write.WriteOk? && !fs[i].renameFails
    decreases i
  {
    var st := Set(c, dc, s, d, fs[0], ws[0].key, ws[0].value);
    assert st.store.data == Apply(c, s.data, ws[0]);
    WrittenPrefix(c, s.data, ws, i);
    if i == 0 {
      assert ws[1..][..0] == [];
    } else {
      RunOutcomeAt(c, dc, st.store, st.disk, ws[1..], fs[1..], i - 1);
      assert RunOutcomes(c, dc, s, d, ws, fs)[i] == RunOutcomes(c, dc, st.store, st.disk, ws[1..], fs[1..])[i - 1];
    }
  }

  /** With distinct keys, each write's key ends up holding that write's
      encoding (or what it held before, if the value did not encode), and
      keys nobody wrote keep their old entries. */
  lemma {:induction false} WrittenAt<T>(c: Codec<T>, m: Entries, ws: seq<Write<T>>)
    requires DistinctKeys(ws)
    ensures forall i :: 0 <= i < |ws| && c.encode(ws[i].value).Some? ==>
              Lookup(Written(c, m, ws), ws[i].key) == c.encode(ws[i].value)
    ensures forall i :: 0 <= i < |ws| && c.encode(ws[i].value).None? ==>
              Lookup(Written(c, m, ws), ws[i].key) == Lookup(m, ws[i].key)
    ensures forall k :: (forall i :: 0 <= i < |ws| ==> ws[i].key != k) ==>
              Lookup(Written(c, m, ws), k) == Lookup(m, k)
    decreases |ws|
  {
    if |ws| > 0 {
      var m' := Apply(c, m, ws[0]);
      var tail := ws[1..];
      assert DistinctKeys(tail) by {
        forall i, j | 0 <= i < j < |tail|
          ensures tail[i].key != tail[j].key
        {
          assert tail[i] == ws[i + 1] && tail[j] == ws[j + 1];
        }
      }
      WrittenAt(c, m', tail);
      assert Written(c, m, ws) == Written(c, m', tail);
      assert forall i :: 0 <= i < |tail| ==> tail[i] == ws[i + 1];
      forall k | forall i :: 0 <= i < |tail| ==> tail[i].key != k
        ensures Lookup(Written(c, m, ws), k) == Lookup(m', k)
      {
      }
      forall i | 0 < i < |ws|
        ensures ws[i].key != ws[0].key
      {
      }
      assert forall i :: 0 < i < |ws| ==> ws[i] == tail[i - 1];
    }
  }

  /** Entries that agree on every key are equal. */
  lemma EntriesExtensional(m1: Entries, m2: Entries)
    requires forall k :: Lookup(m1, k) == Lookup(m2, k)
    ensures m1 == m2
  {
    assert forall k :: k in m1 <==> Lookup(m1, k).Some?;
    assert m1.Keys == m2.Keys;
  }

  /** Writes to distinct keys commute: any reordering yields the same entries. */
  lemma {:induction false} WrittenOrderIrrelevant<T>(c: Codec<T>, m: Entries, ws1: seq<Write<T>>, ws2: seq<Write<T>>)
    requires DistinctKeys(ws1) && DistinctKeys(ws2)
    requires multiset(ws1) == multiset(ws2)
    ensures Written(c, m, ws1) == Written(c, m, ws2)
  {
    WrittenAt(c, m, ws1);
    WrittenAt(c, m, ws2);
    forall k
      ensures Lookup(Written(c, m, ws1), k) == Lookup(Written(c, m, ws2), k)
    {
      if i :| 0 <= i < |ws1| && ws1[i].key == k {
        assert ws1[i] in multiset(ws2);
        var j :| 0 <= j < |ws2| && ws2[j] == ws1[i];
      } else {
        forall j | 0 <= j < |ws2|
          ensures ws2[j].key != k
        {
          assert ws2[j] in multiset(ws1);
        }
      }
    }
    EntriesExtensional(Written(c, m, ws1), Written(c, m, ws2));
  }

  /** Any two serialisations of the same distinct-key `Set` calls, under any
      disk faults, leave the store with the same entries. */
  lemma {:induction false} RunOrderIrrelevant<T>(c: Codec<T>, dc: DocCodec, s: Store, d: Disk,
                              ws1: seq<Write<T>>, fs1: seq<Faults>, ws2: seq<Write<T>>, fs2: seq<Faults>)
    requires |fs1| == |ws1| && |fs2| == |ws2|
    requires DistinctKeys(ws1) && DistinctKeys(ws2)
    requires multiset(ws1) == multiset(ws2)
    ensures RunSets(c, dc, s, d, ws1, fs1).store == RunSets(c, dc, s, d, ws2, fs2).store
  {
    WrittenOrderIrrelevant(c, s.data, ws1, ws2);
  }

  /** The content of the concurrent unique-key test: after every writer's
      `Set`, each key yields its own writer's value. */
  lemma {:induction false} UniqueWritersReadBack<T(!new)>(c: Codec<T>, dc: DocCodec, s: Store, d: Disk, ws: seq<Write<T>>, fs: seq<Faults>)
    requires ValueRoundTrip(c)
    requires |fs| == |ws|
    requires DistinctKeys(ws)
    requires forall i :: 0 <= i < |ws| ==> c.encode(ws[i].value).Some?
    ensures forall i :: 0 <= i < |ws| ==>
              Get(c, RunSets(c, dc, s, d, ws, fs).store, ws[i].key) == Fetched(ws[i].value, Pass)
  {
    WrittenAt(c, s.data, ws);
  }

  /** Every writer's `Set` succeeds when the disk does not fail, every value
      encodes, and every mapping the run passes through encodes as a document. */
  lemma UniqueWritersSucceed<T>(c: Codec<T>, dc: DocCodec, s: Store, d: Disk, ws: seq<Write<T>>, fs: seq<Faults>)
    requires |fs| == |ws|
    requires forall i :: 0 <= i < |fs| ==> fs[i] == NoFaults
    requires forall i :: 0 <= i < |ws| ==> c.encode(ws[i].value).Some?
    requires forall n :: 0 < n <= |ws| ==> dc.encode(Written(c, s.data, ws[..n])).Some?
    ensures forall i :: 0 <= i < |ws| ==> RunOutcomes(c, dc, s, d, ws, fs)[i] == Pass
  {
    forall i | 0 <= i < |ws|
      ensures RunOutcomes(c, dc, s, d, ws, fs)[i] == Pass
    {
      RunOutcomeAt(c, dc, s, d, ws, fs, i);
    }
  }

  /** The delete scenario: a store created on a missing path, then
      `Set("one", one)`, `Set("two", two)`, `Delete("one")`. Both keys are
      listed after the two sets; afterwards "one" is not found and "two"
      reads back as `two`. With no disk faults, the delete reports success
      exactly when the remaining mapping encodes. */
  lemma DeleteScenario<T(!new)>(c: Codec<T>, dc: DocCodec, path: Path, d: Disk, one: T, two: T)
    requires ValueRoundTrip(c)
    requires path !in d.files
    requires c.encode(one).Some? && c.encode(two).Some?
    ensures var o := NewStore(dc, path, d, NoFaults);
            && o.result.Ok?
            && var s1 := Set(c, dc, o.result.value, o.disk, NoFaults, "one", one);
            && var s2 := Set(c, dc, s1.store, s1.disk, NoFaults, "two", two);
            && s2.store.data.Keys == {"one", "two"}
            && var s3 := Delete(dc, s2.store, s2.disk, NoFaults, "one");
            && (s3.outcome.Pass? <==> dc.encode(map["two" := c.encode(two).value]).Some?)
            && Get(c, s3.store, "one") == Fetched(c.zero, Fail(NotFound))
            && Get(c, s3.store, "two") == Fetched(two, Pass)
  {
    var o := NewStore(dc, path, d, NoFaults);
    var s1 := Set(c, dc, o.result.value, o.disk, NoFaults, "one", one);
    var s2 := Set(c, dc, s1.store, s1.disk, NoFaults, "two", two);
    var s3 := Delete(dc, s2.store, s2.disk, NoFaults, "one");
    assert s3.store.data == map["two" := c.encode(two).value];
  }
}
