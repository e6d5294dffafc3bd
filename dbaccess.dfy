/**
 * The in-memory caches of the database access layer: the embedding holder,
 * which caches embedding containers by vector id, and the segment holder,
 * which caches segment containers by segment id.
 */
module DbAccess {
  import opened Params

  /** `VecId`, `SegmentId` and `ClusterId` are all `usize`. */
  type VecId = nat
  type SegmentId = nat
  type ClusterId = nat

  /** The tokenizer's `Embedding`, a struct without fields. */
  datatype TokenEmbedding = TokenEmbedding

  datatype SegmentContainer = SegmentContainer(segment: TokenEmbedding, segmentId: SegmentId)

  /** An embedding and the ids of its segments (the `Rc` links to the segments are not modelled). */
  datatype EmbeddingContainer = EmbeddingContainer(embeddingId: VecId, segments: seq<SegmentId>)

  // ---------------------------------------------------------------------------
  // Filtering and counting over a set of cached ids

  /** How many of `ids` are in `cached`: the `filter(..).count()` of `are_cached`. */
  function CountCached(ids: seq<nat>, cached: set<nat>): (n: nat)
    ensures n <= |ids|
  {
    if |ids| == 0 then 0
    else CountCached(ids[..|ids| - 1], cached) + (if ids[|ids| - 1] in cached then 1 else 0)
  }

  /** Every id is counted exactly when every id is cached. */
  lemma {:induction false} CountCachedAll(ids: seq<nat>, cached: set<nat>)
    ensures CountCached(ids, cached) == |ids| <==> forall i :: 0 <= i < |ids| ==> ids[i] in cached
    decreases |ids|
  {
    if |ids| > 0 {
      var front := ids[..|ids| - 1];
      CountCachedAll(front, cached);
      assert forall i :: 0 <= i < |front| ==> front[i] == ids[i];
    }
  }

  /** The ids of `ids` that are not in `cached`, in order, duplicates kept: the `filter(..).collect()` of `not_cached`. */
  function Uncached(ids: seq<nat>, cached: set<nat>): (r: seq<nat>)
    ensures |r| <= |ids|
  {
    if |ids| == 0 then []
    else Uncached(ids[..|ids| - 1], cached) + (if ids[|ids| - 1] in cached then [] else [ids[|ids| - 1]])
  }

  /** Filtering keeps the order of the input: filtering a concatenation concatenates the results. */
  lemma {:induction false} UncachedAppend(a: seq<nat>, b: seq<nat>, cached: set<nat>)
    ensures Uncached(a + b, cached) == Uncached(a, cached) + Uncached(b, cached)
    decreases |b|
  {
    if |b| == 0 {
      assert a + b == a;
    } else {
      var front := b[..|b| - 1];
      UncachedAppend(a, front, cached);
      assert (a + b)[..|a + b| - 1] == a + front;
    }
  }

  /** Each id occurs in the result as often as in the input when it is not cached, and never when it is. */
  lemma {:induction false} UncachedCounts(ids: seq<nat>, cached: set<nat>)
    ensures forall id :: multiset(Uncached(ids, cached))[id] == if id in cached then 0 else multiset(ids)[id]
    decreases |ids|
  {
    if |ids| > 0 {
      var front := ids[..|ids| - 1];
      UncachedCounts(front, cached);
      assert ids == front + [ids[|ids| - 1]];
    }
  }

  /** The result is empty exactly when every id is cached. */
  lemma {:induction false} UncachedEmpty(ids: seq<nat>, cached: set<nat>)
    ensures |Uncached(ids, cached)| == 0 <==> forall i :: 0 <= i < |ids| ==> ids[i] in cached
    decreases |ids|
  {
    if |ids| > 0 {
      var front := ids[..|ids| - 1];
      UncachedEmpty(front, cached);
      assert forall i :: 0 <= i < |front| ==> front[i] == ids[i];
    }
  }

  // ---------------------------------------------------------------------------
  // The embedding holder

  class EmbeddingHolder {
    var embeddings: map<VecId, EmbeddingContainer>

    /** `EmbeddingHolder::new`: nothing cached. */
    constructor ()
      ensures embeddings == map[]
    {
      embeddings := map[];
    }

    /**
     * `are_cached`: the count of requested ids that are keys of the cache
     * equals the number of requested ids, that is, every one is cached.
     */
    function AreCached(ids: seq<VecId>, cluster: ClusterId): (r: bool)
      reads this
      ensures r <==> forall i :: 0 <= i < |ids| ==> ids[i] in embeddings
    {
      CountCachedAll(ids, embeddings.Keys);
      CountCached(ids, embeddings.Keys) == |ids|
    }
  }

  // ---------------------------------------------------------------------------
  // The segment holder

  /** `cache` after inserting every container under its id, in order. */
  function Inserted(cache: map<SegmentId, SegmentContainer>, containers: seq<SegmentContainer>)
    : map<SegmentId, SegmentContainer>
  {
    if |containers| == 0 then cache
    else
      var last := containers[|containers| - 1];
      Inserted(cache, containers[..|containers| - 1])[last.segmentId := last]
  }

  /** The id of some container. */
  predicate HasContainerFor(containers: seq<SegmentContainer>, id: SegmentId)
  {
    exists i :: 0 <= i < |containers| && containers[i].segmentId == id
  }

  /** An id no container carries keeps its cache entry, or its absence. */
  lemma {:induction false} InsertedOthersUnchanged(cache: map<SegmentId, SegmentContainer>,
                                                   containers: seq<SegmentContainer>, id: SegmentId)
    requires !HasContainerFor(containers, id)
    ensures id in Inserted(cache, containers) <==> id in cache
    ensures id in cache ==> Inserted(cache, containers)[id] == cache[id]
    decreases |containers|
  {
    if |containers| > 0 {
      var front := containers[..|containers| - 1];
      assert !HasContainerFor(front, id) by {
        forall i | 0 <= i < |front|
          ensures front[i].segmentId != id
        {
          assert front[i] == containers[i];
        }
      }
      InsertedOthersUnchanged(cache, front, id);
    }
  }

  /** The cache holds, under a container's id, the last container carrying that id. */
  lemma {:induction false} InsertedLaterWins(cache: map<SegmentId, SegmentContainer>,
                                             containers: seq<SegmentContainer>, i: nat)
    requires i < |containers|
    requires forall j :: i < j < |containers| ==> containers[j].segmentId != containers[i].segmentId
    ensures containers[i].segmentId in Inserted(cache, containers)
    ensures Inserted(cache, containers)[containers[i].segmentId] == containers[i]
    decreases |containers|
  {
    if i < |containers| - 1 {
      var front := containers[..|containers| - 1];
      assert front[i] == containers[i];
      InsertedLaterWins(cache, front, i);
    }
  }

  class SegmentHolder {
    var segments: map<SegmentId, SegmentContainer>

    /** `SegmentHolder::new`: nothing cached. */
    constructor ()
      ensures segments == map[]
    {
      segments := map[];
    }

    /**
     * `not_cached`: `None` when every requested id is cached, otherwise the
     * requested ids that are not, in request order and with repeats.
     */
    function NotCached(ids: seq<SegmentId>): (r: Option<seq<SegmentId>>)
      reads this
      ensures r.None? <==> forall i :: 0 <= i < |ids| ==> ids[i] in segments
      ensures r.Some? ==> |r.value| > 0
      ensures r.Some? ==> forall id :: multiset(r.value)[id] == if id in segments then 0 else multiset(ids)[id]
    {
      var uncached := Uncached(ids, segments.Keys);
      UncachedEmpty(ids, segments.Keys);
      UncachedCounts(ids, segments.Keys);
      if |uncached| == 0 then None else Some(uncached)
    }

    /** `update_cache`: every container is inserted under its id, one after the other. */
    method UpdateCache(containers: seq<SegmentContainer>)
      modifies this
      ensures segments == Inserted(old(segments), containers)
    {
      for i := 0 to |containers|
        invariant segments == Inserted(old(segments), containers[..i])
      {
        assert containers[..i + 1][..i] == containers[..i];
        segments := segments[containers[i].segmentId := containers[i]];
      }
      assert containers[..|containers|] == containers;
    }

    /**
     * `cached_segments`: the cached container of every requested id, in
     * request order; a requested id that is not cached panics on `unwrap`,
     * `None` here.
     */
    method CachedSegments(ids: seq<SegmentId>) returns (r: Option<seq<SegmentContainer>>)
      ensures r.None? <==> exists i :: 0 <= i < |ids| && ids[i] !in segments
      ensures r.Some? ==> |r.value| == |ids| && forall i :: 0 <= i < |ids| ==> r.value[i] == segments[ids[i]]
    {
      var result: seq<SegmentContainer> := [];
      for i := 0 to |ids|
        invariant |result| == i
        invariant forall j :: 0 <= j < i ==> ids[j] in segments && result[j] == segments[ids[j]]
      {
        if ids[i] !in segments {
          return None;
        }
        result := result + [segments[ids[i]]];
      }
      r := Some(result);
    }
  }

  // ---------------------------------------------------------------------------
  // The access point

  datatype ActionType =
    | Load(embeddings: seq<VecId>, cluster: ClusterId)
    | Dump(embeddings: seq<VecId>, cluster: ClusterId)

  /** `ResponseResult`: a loaded embedding holder, or an acknowledged dump. */
  datatype ResponseResult = Loaded(holder: EmbeddingHolder) | Dumped

  class DbAccess {
    const embeddingHolder: EmbeddingHolder
    const segmentHolder: SegmentHolder

    /** `DbAccess::new`: empty caches and no shards. */
    constructor ()
      ensures fresh(embeddingHolder) && fresh(segmentHolder)
      ensures embeddingHolder.embeddings == map[] && segmentHolder.segments == map[]
    {
      embeddingHolder := new EmbeddingHolder();
      segmentHolder := new SegmentHolder();
    }

    /**
     * `get_cached`: a load whose embeddings are all cached is answered from
     * the embedding holder; any other load, and every dump, gets `None`.
     */
    function GetCached(act: ActionType): (r: Option<ResponseResult>)
      reads this, embeddingHolder
      ensures act.Dump? ==> r.None?
      ensures act.Load? ==> (r.Some? <==> forall i :: 0 <= i < |act.embeddings| ==> act.embeddings[i] in embeddingHolder.embeddings)
      ensures r.Some? ==> r.value == Loaded(embeddingHolder)
    {
      match act
      case Load(embeddings, cluster) =>
        if embeddingHolder.AreCached(embeddings, cluster) then Some(Loaded(embeddingHolder)) else None
      case Dump(_, _) => None
    }
  }
}
