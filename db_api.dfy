/**
 * The persistence layer of the index: a key-value store (RocksDB in the
 * repository) holding the codebook under the key `codebook` and the inverted
 * index under the key `ivf`, written with a compare-before-write policy.
 *
 * The store is a map from keys to stored values plus a script of I/O
 * failures: the i-th store call from now fails when `faults[i]` is true, and
 * every call past the end of the script succeeds. CBOR is an encoding that
 * reads back what it wrote; a bucket inside the stored index is kept in its
 * `to_json` text, as the bucket's serde implementation does.
 */
module DbApi {
  import opened Params
  import opened PrimitiveTypes
  import opened Ivfpq
  import opened Serialization

  const CODEBOOK_KEY: string := "codebook"
  const IVF_KEY: string := "ivf"

  /** `[Default::default(); CQ_K_CENTROIDS]`: the codebook of all-zero embeddings. */
  const DEFAULT_CODEBOOK: Codebook := seq(CQ_K_CENTROIDS, _ => ZERO_EMBEDDING)

  /** A stored value: the CBOR of a codebook, or the CBOR of an index, a sequence of bucket texts. */
  datatype Blob = CodebookBlob(codebook: Codebook) | IvfBlob(buckets: seq<string>)

  /**
   * `StoreError` is a RocksDB error passed on by `?`; `Corrupt` stands for the
   * panic of `expect` when a stored value does not decode.
   */
  datatype DbError = StoreError | Corrupt

  datatype DbResult<T> = Ok(value: T) | Err(error: DbError)

  // ---------------------------------------------------------------------------
  // Encodings

  function DecodeCodebook(b: Blob): Option<Codebook>
  {
    if b.CodebookBlob? then Some(b.codebook) else None
  }

  /** `serde_cbor::to_vec` of a codebook: decoding gives the codebook back. */
  function EncodeCodebook(cb: Codebook): (b: Blob)
    ensures DecodeCodebook(b) == Some(cb)
  {
    CodebookBlob(cb)
  }

  /** The text of every bucket of an index, in bucket order. */
  function BucketTexts(cs: seq<Bucket>): (texts: seq<string>)
    ensures |texts| == |cs|
  {
    seq(|cs|, i requires 0 <= i < |cs| => ToJson(cs[i]))
  }

  /** Every bucket text read back by `read` (a failing text fails the whole index). */
  function ParseBucketsWith(texts: seq<string>, read: string -> Option<Bucket>): (r: Option<seq<Bucket>>)
    ensures r.Some? ==> |r.value| == |texts|
  {
    if |texts| == 0 then Some([])
    else
      var front := ParseBucketsWith(texts[..|texts| - 1], read);
      var last := read(texts[|texts| - 1]);
      if front.None? || last.None? then None else Some(front.value + [last.value])
  }

  /** Decoding a stored index, each bucket through `from_json` with the empty-bucket case. */
  function DecodeIvf(b: Blob): (r: Option<seq<Bucket>>)
    ensures r.Some? ==> b.IvfBlob? && |r.value| == |b.buckets|
  {
    if b.IvfBlob? then ParseBucketsWith(b.buckets, ParseJson) else None
  }

  /** Decoding a stored index with `from_json` as written. */
  function DecodeIvfAsWritten(b: Blob): (r: Option<seq<Bucket>>)
    ensures r.Some? ==> b.IvfBlob? && |r.value| == |b.buckets|
  {
    if b.IvfBlob? then ParseBucketsWith(b.buckets, ParseJsonAsWritten) else None
  }

  /** Reading every text succeeds when each text reads back as its own bucket. */
  lemma {:induction false} ParseBucketsWithAll(texts: seq<string>, read: string -> Option<Bucket>, cs: seq<Bucket>)
    requires |texts| == |cs|
    requires forall i :: 0 <= i < |texts| ==> read(texts[i]) == Some(cs[i])
    ensures ParseBucketsWith(texts, read) == Some(cs)
    decreases |texts|
  {
    if |texts| > 0 {
      var n := |texts| - 1;
      ParseBucketsWithAll(texts[..n], read, cs[..n]);
      assert cs[..n] + [cs[n]] == cs;
    }
  }

  lemma ParseBucketTexts(cs: seq<Bucket>)
    ensures ParseBucketsWith(BucketTexts(cs), ParseJson) == Some(cs)
  {
    var texts := BucketTexts(cs);
    forall i | 0 <= i < |texts|
      ensures ParseJson(texts[i]) == Some(cs[i])
    {
      JsonRoundTrip(cs[i]);
    }
    ParseBucketsWithAll(texts, ParseJson, cs);
  }

  /** `serde_cbor::to_vec` of an index: decoding gives the bucket contents back. */
  function EncodeIvf(cs: seq<Bucket>): (b: Blob)
    ensures DecodeIvf(b) == Some(cs)
  {
    ParseBucketTexts(cs);
    IvfBlob(BucketTexts(cs))
  }

  /** As written, an index holding an empty bucket is stored but cannot be loaded back. */
  lemma IndexWithEmptyBucketDoesNotReload(cs: seq<Bucket>, i: nat)
    requires i < |cs| && cs[i] == map[]
    ensures DecodeIvfAsWritten(EncodeIvf(cs)).None?
  {
    EmptyBucketDoesNotRoundTrip();
    ParseBucketsWithFails(BucketTexts(cs), ParseJsonAsWritten, i);
  }

  lemma {:induction false} ParseBucketsWithFails(texts: seq<string>, read: string -> Option<Bucket>, i: nat)
    requires i < |texts| && read(texts[i]).None?
    ensures ParseBucketsWith(texts, read).None?
    decreases |texts|
  {
    if i < |texts| - 1 {
      ParseBucketsWithFails(texts[..|texts| - 1], read, i);
    }
  }

  // ---------------------------------------------------------------------------
  // The store

  /** Whether the i-th store call from now fails. */
  predicate FailsAt(faults: seq<bool>, i: nat)
  {
    i < |faults| && faults[i]
  }

  /** The script left after `n` calls. */
  function Rest(faults: seq<bool>, n: nat): seq<bool>
  {
    if n <= |faults| then faults[n..] else []
  }

  /** A RocksDB handle: its contents and the failures its next calls meet. */
  class KvStore {
    var data: map<string, Blob>
    var faults: seq<bool>

    constructor (data0: map<string, Blob>, faults0: seq<bool>)
      ensures data == data0 && faults == faults0
    {
      data := data0;
      faults := faults0;
    }

    /** `DB::get`: the stored value, if any, unless the call fails. */
    method Get(key: string) returns (r: DbResult<Option<Blob>>)
      modifies this
      ensures data == old(data) && faults == Rest(old(faults), 1)
      ensures r == if FailsAt(old(faults), 0) then Err(StoreError)
                   else Ok(if key in data then Some(data[key]) else None)
    {
      if FailsAt(faults, 0) {
        r := Err(StoreError);
      } else {
        r := Ok(if key in data then Some(data[key]) else None);
      }
      faults := Rest(faults, 1);
    }

    /** `DB::put`: stores `value` under `key`, unless the call fails. */
    method Put(key: string, value: Blob) returns (r: DbResult<()>)
      modifies this
      ensures faults == Rest(old(faults), 1)
      ensures FailsAt(old(faults), 0) ==> r == Err(StoreError) && data == old(data)
      ensures !FailsAt(old(faults), 0) ==> r == Ok(()) && data == old(data)[key := value]
    {
      if FailsAt(faults, 0) {
        r := Err(StoreError);
      } else {
        data := data[key := value];
        r := Ok(());
      }
      faults := Rest(faults, 1);
    }

    /** `DB::delete`: removes `key`, unless the call fails. */
    method Delete(key: string) returns (r: DbResult<()>)
      modifies this
      ensures faults == Rest(old(faults), 1)
      ensures FailsAt(old(faults), 0) ==> r == Err(StoreError) && data == old(data)
      ensures !FailsAt(old(faults), 0) ==> r == Ok(()) && data == old(data) - {key}
    {
      if FailsAt(faults, 0) {
        r := Err(StoreError);
      } else {
        data := data - {key};
        r := Ok(());
      }
      faults := Rest(faults, 1);
    }
  }

  // ---------------------------------------------------------------------------
  // The policy

  /** What a persist call returns, the contents it leaves and how many store calls it made. */
  datatype Outcome = Outcome(result: DbResult<()>, data: map<string, Blob>, calls: nat)

  /**
   * `persist_codebook` / `persist_ivf`: read the key; if it is absent put the
   * value; if it holds a value that decodes to something different, delete
   * the key and put the value; if it holds the same value, write nothing. The
   * first failing call ends the operation with its error.
   */
  function PersistSpec<T(==)>(data: map<string, Blob>, faults: seq<bool>, key: string,
                              value: T, encoded: Blob, decode: Blob -> Option<T>): (o: Outcome)
    ensures 1 <= o.calls <= 3
    ensures o.result.Ok? ==> key in o.data
  {
    if FailsAt(faults, 0) then Outcome(Err(StoreError), data, 1)
    else if key !in data then
      if FailsAt(faults, 1) then Outcome(Err(StoreError), data, 2)
      else Outcome(Ok(()), data[key := encoded], 2)
    else
      var stored := decode(data[key]);
      if stored.None? then Outcome(Err(Corrupt), data, 1)
      else if stored.value == value then Outcome(Ok(()), data, 1)
      else if FailsAt(faults, 1) then Outcome(Err(StoreError), data, 2)
      else if FailsAt(faults, 2) then Outcome(Err(StoreError), data - {key}, 3)
      else Outcome(Ok(()), (data - {key})[key := encoded], 3)
  }

  /**
   * `load_codebook` / `load_ivf`: the decoded stored value, or `default` when
   * the key is absent; a failing read is an error, and so is a stored value
   * that does not decode.
   */
  function LoadSpec<T>(data: map<string, Blob>, faults: seq<bool>, key: string,
                       default: T, decode: Blob -> Option<T>): (r: DbResult<T>)
    ensures r.Err? <==> FailsAt(faults, 0) || (key in data && decode(data[key]).None?)
    ensures r.Ok? && key !in data ==> r.value == default
    ensures r.Ok? && key in data ==> decode(data[key]) == Some(r.value)
  {
    if FailsAt(faults, 0) then Err(StoreError)
    else if key !in data then Ok(default)
    else
      var stored := decode(data[key]);
      if stored.None? then Err(Corrupt) else Ok(stored.value)
  }

  /** None of the next `n` store calls fails. */
  predicate NoFaults(faults: seq<bool>, n: nat)
  {
    forall i :: 0 <= i < n ==> !FailsAt(faults, i)
  }

  /**
   * With a working store and a readable stored value: an absent key is
   * written, a different value is replaced, an equal value is left alone
   * after a single read.
   */
  lemma PersistPolicy<T>(data: map<string, Blob>, faults: seq<bool>, key: string,
                             value: T, encoded: Blob, decode: Blob -> Option<T>)
    requires NoFaults(faults, 3)
    requires key in data ==> decode(data[key]).Some?
    ensures var o := PersistSpec(data, faults, key, value, encoded, decode);
      && o.result == Ok(())
      && (key !in data ==> o.data == data[key := encoded])
      && (key in data && decode(data[key]) != Some(value) ==> o.data == data[key := encoded])
      && (key in data && decode(data[key]) == Some(value) ==> o.data == data && o.calls == 1)
  {
    assert !FailsAt(faults, 0) && !FailsAt(faults, 1) && !FailsAt(faults, 2);
    if key in data && decode(data[key]) != Some(value) {
      assert (data - {key})[key := encoded] == data[key := encoded];
    }
  }

  /** A persist changes no key other than its own. */
  lemma PersistOnlyOwnKey<T>(data: map<string, Blob>, faults: seq<bool>, key: string,
                                 value: T, encoded: Blob, decode: Blob -> Option<T>, other: string)
    requires other != key
    ensures var o := PersistSpec(data, faults, key, value, encoded, decode);
      (other in o.data <==> other in data) && (other in data ==> o.data[other] == data[other])
  {
  }

  /**
   * Store errors come back unchanged: a persist returns `StoreError` exactly
   * when its last call failed, and every call before that one succeeded.
   */
  lemma PersistStopsAtFirstFailure<T>(data: map<string, Blob>, faults: seq<bool>, key: string,
                                          value: T, encoded: Blob, decode: Blob -> Option<T>)
    ensures var o := PersistSpec(data, faults, key, value, encoded, decode);
      && 1 <= o.calls <= 3
      && (o.result == Err(StoreError) <==> FailsAt(faults, o.calls - 1))
      && (forall i :: 0 <= i < o.calls - 1 ==> !FailsAt(faults, i))
  {
  }

  /**
   * Replacing is not atomic: when the delete succeeds and the put after it
   * fails, the key is left absent.
   */
  lemma InterruptedReplaceLosesKey<T>(data: map<string, Blob>, faults: seq<bool>, key: string,
                                          value: T, encoded: Blob, decode: Blob -> Option<T>)
    requires key in data && decode(data[key]).Some? && decode(data[key]).value != value
    requires !FailsAt(faults, 0) && !FailsAt(faults, 1) && FailsAt(faults, 2)
    ensures var o := PersistSpec(data, faults, key, value, encoded, decode);
      o.result == Err(StoreError) && key !in o.data
  {
  }

  /** Persisting and then loading, with a working store, gives the persisted value back. */
  lemma PersistThenLoad<T>(data: map<string, Blob>, faults: seq<bool>, later: seq<bool>, key: string,
                               value: T, encoded: Blob, decode: Blob -> Option<T>, default: T)
    requires decode(encoded) == Some(value)
    requires NoFaults(faults, 3) && !FailsAt(later, 0)
    requires key in data ==> decode(data[key]).Some?
    ensures var o := PersistSpec(data, faults, key, value, encoded, decode);
      o.result == Ok(()) && LoadSpec(o.data, later, key, default, decode) == Ok(value)
  {
    PersistPolicy(data, faults, key, value, encoded, decode);
  }

  /** After a successful persist, persisting the same value again reads once and writes nothing. */
  lemma PersistIdempotent<T>(data: map<string, Blob>, faults: seq<bool>, again: seq<bool>, key: string,
                                 value: T, encoded: Blob, decode: Blob -> Option<T>)
    requires decode(encoded) == Some(value)
    requires PersistSpec(data, faults, key, value, encoded, decode).result == Ok(())
    requires !FailsAt(again, 0)
    ensures var first := PersistSpec(data, faults, key, value, encoded, decode);
      PersistSpec(first.data, again, key, value, encoded, decode) == Outcome(Ok(()), first.data, 1)
  {
    var first := PersistSpec(data, faults, key, value, encoded, decode);
    assert key in first.data && decode(first.data[key]) == Some(value);
  }

  /** The repository's codebook test: a persisted codebook loads back unchanged. */
  lemma CodebookPersistThenLoad(data: map<string, Blob>, faults: seq<bool>, later: seq<bool>, cb: Codebook)
    requires NoFaults(faults, 3) && !FailsAt(later, 0)
    requires CODEBOOK_KEY in data ==> DecodeCodebook(data[CODEBOOK_KEY]).Some?
    ensures var o := PersistSpec(data, faults, CODEBOOK_KEY, cb, EncodeCodebook(cb), DecodeCodebook);
      o.result == Ok(())
      && LoadSpec(o.data, later, CODEBOOK_KEY, DEFAULT_CODEBOOK, DecodeCodebook) == Ok(cb)
  {
    PersistThenLoad(data, faults, later, CODEBOOK_KEY, cb, EncodeCodebook(cb), DecodeCodebook, DEFAULT_CODEBOOK);
  }

  /** The repository's index test: a persisted index loads back with the same buckets. */
  lemma IvfPersistThenLoad(data: map<string, Blob>, faults: seq<bool>, later: seq<bool>, cs: seq<Bucket>)
    requires NoFaults(faults, 3) && !FailsAt(later, 0)
    requires IVF_KEY in data ==> DecodeIvf(data[IVF_KEY]).Some?
    ensures var o := PersistSpec(data, faults, IVF_KEY, cs, EncodeIvf(cs), DecodeIvf);
      o.result == Ok(()) && LoadSpec(o.data, later, IVF_KEY, [], DecodeIvf) == Ok(cs)
  {
    PersistThenLoad(data, faults, later, IVF_KEY, cs, EncodeIvf(cs), DecodeIvf, []);
  }

  // ---------------------------------------------------------------------------
  // The wrapper

  /** `DatabaseWrapper<Open>`: an opened store. */
  class DatabaseWrapper {
    const database: KvStore

    /** `DatabaseWrapper::open`; opening the RocksDB files is not modelled. */
    constructor Open(store: KvStore)
      ensures database == store
    {
      database := store;
    }

    /** The shared body of the two persist operations. */
    method Persist<T(==)>(key: string, value: T, encoded: Blob, decode: Blob -> Option<T>)
      returns (r: DbResult<()>)
      modifies database
      ensures var o := PersistSpec(old(database.data), old(database.faults), key, value, encoded, decode);
        r == o.result && database.data == o.data && database.faults == Rest(old(database.faults), o.calls)
    {
      var got := database.Get(key);
      if got.Err? {
        return Err(got.error);
      }
      if got.value.None? {
        r := database.Put(key, encoded);
        return;
      }
      var stored := decode(got.value.value);
      if stored.None? {
        return Err(Corrupt);
      }
      if stored.value != value {
        var deleted := database.Delete(key);
        if deleted.Err? {
          return Err(deleted.error);
        }
        r := database.Put(key, encoded);
        return;
      }
      r := Ok(());
    }

    /** `persist_codebook`. */
    method PersistCodebook(codeb: Codebook) returns (r: DbResult<()>)
      modifies database
      ensures var o := PersistSpec(old(database.data), old(database.faults), CODEBOOK_KEY, codeb,
                                   EncodeCodebook(codeb), DecodeCodebook);
        r == o.result && database.data == o.data && database.faults == Rest(old(database.faults), o.calls)
    {
      r := Persist(CODEBOOK_KEY, codeb, EncodeCodebook(codeb), DecodeCodebook);
    }

    /** `load_codebook`: the stored codebook, or the all-zero codebook when none is stored. */
    method LoadCodebook() returns (r: DbResult<Codebook>)
      modifies database
      ensures r == LoadSpec(old(database.data), old(database.faults), CODEBOOK_KEY, DEFAULT_CODEBOOK, DecodeCodebook)
      ensures database.data == old(database.data) && database.faults == Rest(old(database.faults), 1)
    {
      var got := database.Get(CODEBOOK_KEY);
      if got.Err? {
        return Err(got.error);
      }
      if got.value.None? {
        return Ok(DEFAULT_CODEBOOK);
      }
      var stored := DecodeCodebook(got.value.value);
      if stored.None? {
        return Err(Corrupt);
      }
      r := Ok(stored.value);
    }

    /** `persist_ivf`: the same policy, comparing bucket contents. */
    method PersistIvf(ivf: InvertedIndex) returns (r: DbResult<()>)
      modifies database
      ensures var o := PersistSpec(old(database.data), old(database.faults), IVF_KEY, ivf.Contents(),
                                   EncodeIvf(ivf.Contents()), DecodeIvf);
        r == o.result && database.data == o.data && database.faults == Rest(old(database.faults), o.calls)
    {
      var contents := ivf.Contents();
      r := Persist(IVF_KEY, contents, EncodeIvf(contents), DecodeIvf);
    }

    /** `load_ivf`: a new index holding the stored buckets, or `InvertedIndex::empty()` when none is stored. */
    method LoadIvf() returns (r: DbResult<InvertedIndex>)
      modifies database
      ensures var spec := LoadSpec(old(database.data), old(database.faults), IVF_KEY, [], DecodeIvf);
        && (r.Err? <==> spec.Err?)
        && (r.Err? ==> r.error == spec.error)
        && (r.Ok? ==> fresh(r.value) && r.value.Valid() && r.value.Contents() == spec.value)
      ensures database.data == old(database.data) && database.faults == Rest(old(database.faults), 1)
    {
      var got := database.Get(IVF_KEY);
      if got.Err? {
        return Err(got.error);
      }
      var contents: seq<Bucket> := [];
      if got.value.Some? {
        var stored := DecodeIvf(got.value.value);
        if stored.None? {
          return Err(Corrupt);
        }
        contents := stored.value;
      }
      var index := Rebuild(contents);
      r := Ok(index);
    }
  }

  /** The index the deserialiser builds: a fresh bucket per stored bucket, in order. */
  method Rebuild(cs: seq<Bucket>) returns (index: InvertedIndex)
    ensures fresh(index) && index.Valid() && index.Contents() == cs
    ensures forall b :: b in index.buckets ==> fresh(b)
  {
    index := new InvertedIndex.Empty();
    for i := 0 to |cs|
      invariant fresh(index) && index.Valid()
      invariant forall b :: b in index.buckets ==> fresh(b)
      invariant index.Contents() == cs[..i]
    {
      var bucket := new AvlWrapper();
      bucket.entries := cs[i];
      index.Push(bucket);
      assert cs[..i + 1] == cs[..i] + [cs[i]];
    }
    assert cs[..|cs|] == cs;
  }
}
