/**
 * The inverted file of the IVF-PQ index: one bucket per coarse cluster, each
 * an ordered map from vector id to PQ-encoded entry; the id counter; the
 * distance table of a query against the sub-centroids; and the scan that
 * `search` runs over one bucket to collect the nearest codes.
 */
module Ivfpq {
  import opened Params
  import opened PrimitiveTypes
  import opened MaxHeap

  // ---------------------------------------------------------------------------
  // In-order iteration of an AVL map

  /** `k` is a key of `s` no larger than any other. */
  predicate IsLeast(s: set<u32>, k: u32)
  {
    k in s && forall x :: x in s ==> k <= x
  }

  /** Every non-empty key set has a least key. */
  lemma {:induction false} HasLeast(s: set<u32>)
    requires s != {}
    ensures exists k :: IsLeast(s, k)
    decreases |s|
  {
    var y :| y in s;
    var t := s - {y};
    if t == {} {
      forall x | x in s
        ensures y <= x
      {
        assert x !in t;
      }
      assert IsLeast(s, y);
    } else {
      HasLeast(t);
      var k :| IsLeast(t, k);
      var least := if y < k then y else k;
      forall x | x in s
        ensures least <= x
      {
        if x != y {
          assert x in t;
        }
      }
      assert IsLeast(s, least);
    }
  }

  /** The smallest key of a non-empty key set. */
  function LeastKey(s: set<u32>): (k: u32)
    requires s != {}
    ensures k in s
    ensures forall x :: x in s ==> k <= x
  {
    HasLeast(s);
    var k :| IsLeast(s, k);
    k
  }

  /** A strictly ascending key sequence. */
  predicate Ascending(ks: seq<u32>)
  {
    forall i, j :: 0 <= i < j < |ks| ==> ks[i] < ks[j]
  }

  /**
   * The keys of an `AvlTreeMap` in the order its iterator yields them:
   * every key exactly once, ascending.
   */
  function SortedKeys(keys: set<u32>): (ks: seq<u32>)
    ensures Ascending(ks)
    ensures forall k :: k in ks <==> k in keys
    ensures |ks| == |keys|
    decreases |keys|
  {
    if keys == {} then []
    else
      var k := LeastKey(keys);
      var rest := SortedKeys(keys - {k});
      AscendingCons(k, rest);
      [k] + rest
  }

  lemma AscendingCons(k: u32, rest: seq<u32>)
    requires Ascending(rest)
    requires forall x :: x in rest ==> k < x
    ensures Ascending([k] + rest)
  {
    forall i, j | 0 <= i < j < |[k] + rest|
      ensures ([k] + rest)[i] < ([k] + rest)[j]
    {
      assert ([k] + rest)[j] == rest[j - 1];
      assert rest[j - 1] in rest;
      if i > 0 {
        assert ([k] + rest)[i] == rest[i - 1];
      }
    }
  }

  // ---------------------------------------------------------------------------
  // Buckets

  /** `AvlWrapper`: one bucket of the inverted file, vector id to entry. */
  class AvlWrapper {
    var entries: map<u32, IVListEntry>

    /** `AvlWrapper::new`: an empty bucket. */
    constructor ()
      ensures entries == map[]
    {
      entries := map[];
    }

    /**
     * `add_embedding`: encode the embedding through its distance table and
     * store the code with its cluster under `vecId`, replacing any entry that
     * id had; no other id is touched.
     */
    method AddEmbedding(cluster: u8, vecId: u32, dt: DistanceTable)
      modifies this
      ensures entries == old(entries)[vecId := IVListEntry(EncodeSpec(dt), cluster)]
    {
      var code := Encode(dt);
      var entry := IVListEntry(code, cluster);
      entries := entries[vecId := entry];
    }
  }

  /** Every entry of bucket `i` records cluster `i`. */
  predicate ClusterConsistent(contents: seq<map<u32, IVListEntry>>)
  {
    forall i, k :: 0 <= i < |contents| && k in contents[i] ==> contents[i][k].cluster as nat == i
  }

  /** Inserting into bucket `c` an entry that records `c` keeps every entry in its own bucket. */
  lemma InsertKeepsClusterConsistent(contents: seq<map<u32, IVListEntry>>, c: u8, id: u32, code: PqCode)
    requires ClusterConsistent(contents)
    requires c as nat < |contents|
    ensures var bucket: map<u32, IVListEntry> := contents[c][id := IVListEntry(code, c)];
      ClusterConsistent(contents[c as nat := bucket])
  {
    var bucket: map<u32, IVListEntry> := contents[c][id := IVListEntry(code, c)];
    var after: seq<map<u32, IVListEntry>> := contents[c as nat := bucket];
    forall i: nat, k: u32 | i < |after| && k in after[i]
      ensures after[i][k].cluster as nat == i
    {
      if i != c {
        assert after[i] == contents[i];
      } else if k != id {
        assert after[i][k] == contents[i][k];
      }
    }
  }

  // ---------------------------------------------------------------------------
  // Vector ids

  /**
   * The `static mut ID` behind `next_id`: it starts at 1 and each call
   * bumps it and hands out the new value. `issued` records the ids handed
   * out. The increment of a `u32` past its maximum panics (debug build).
   */
  class IdCounter {
    var id: u32
    ghost var issued: set<u32>

    ghost predicate Valid()
      reads this
    {
      1 <= id && forall x :: x in issued ==> 2 <= x <= id
    }

    constructor ()
      ensures Valid() && id == 1 && issued == {}
    {
      id := 1;
      issued := {};
    }

    /** `next_id`: the counter plus one, never handed out before and at least 2. */
    method NextId() returns (r: Option<u32>)
      requires Valid()
      modifies this
      ensures Valid()
      ensures old(id) < U32_MAX ==> r == Some(old(id) + 1) && id == old(id) + 1 && issued == old(issued) + {id}
      ensures old(id) == U32_MAX ==> r.None? && id == old(id) && issued == old(issued)
      ensures r.Some? ==> 2 <= r.value && r.value !in old(issued)
      ensures r.Some? ==> forall x :: x in old(issued) ==> x < r.value
    {
      if id == U32_MAX {
        return None;
      }
      id := id + 1;
      issued := issued + {id};
      r := Some(id);
    }
  }

  // ---------------------------------------------------------------------------
  // Distance tables

  /** The row of centroid `centroid`: its distance to the query, segment by segment. */
  function CentroidRow(centroid: Embedding, query: Embedding, dist: (Segment, Segment) -> Float): (row: TableRow)
    ensures forall s :: 0 <= s < EMBEDDING_M_SEGMENTS ==> row[s] == dist(centroid[s], query[s])
  {
    seq(EMBEDDING_M_SEGMENTS, s requires 0 <= s < EMBEDDING_M_SEGMENTS => dist(centroid[s], query[s]))
  }

  /**
   * The table `compute_distance_table` fills: row `c` is centroid `c`'s row,
   * and the rows past the last centroid keep their initial 0.0.
   */
  function DistanceTableSpec(query: Embedding, centroids: seq<Embedding>, dist: (Segment, Segment) -> Float): (dt: DistanceTable)
    requires |centroids| <= CENTROIDS_PER_SUBSPACE_CLUSTER
    ensures forall c :: 0 <= c < |centroids| ==> dt[c] == CentroidRow(centroids[c], query, dist)
    ensures forall c :: |centroids| <= c < CENTROIDS_PER_SUBSPACE_CLUSTER ==> dt[c] == ZERO_ROW
  {
    seq(CENTROIDS_PER_SUBSPACE_CLUSTER, c requires 0 <= c < CENTROIDS_PER_SUBSPACE_CLUSTER =>
      if c < |centroids| then CentroidRow(centroids[c], query, dist) else ZERO_ROW)
  }

  /**
   * Entry `[c][s]` of the table is the distance between segment `s` of
   * centroid `c` and segment `s` of the query, or 0.0 where there is no
   * centroid `c`.
   */
  lemma DistanceTableEntries(query: Embedding, centroids: seq<Embedding>, dist: (Segment, Segment) -> Float, c: nat, s: nat)
    requires |centroids| <= CENTROIDS_PER_SUBSPACE_CLUSTER
    requires c < CENTROIDS_PER_SUBSPACE_CLUSTER && s < EMBEDDING_M_SEGMENTS
    ensures c < |centroids| ==> DistanceTableSpec(query, centroids, dist)[c][s] == dist(centroids[c][s], query[s])
    ensures c >= |centroids| ==> DistanceTableSpec(query, centroids, dist)[c][s] == Num(0.0)
  {
  }

  /**
   * With a full set of centroids and every distance a number below f64::MAX,
   * encoding the query's table gives, segment by segment, the lowest-indexed
   * centroid whose segment is nearest to the query's: product quantisation.
   */
  lemma EncodePicksNearestCentroid(query: Embedding, centroids: seq<Embedding>, dist: (Segment, Segment) -> Float, s: nat)
    requires |centroids| == CENTROIDS_PER_SUBSPACE_CLUSTER && s < EMBEDDING_M_SEGMENTS
    requires forall c :: 0 <= c < |centroids| ==> dist(centroids[c][s], query[s]).Num? && dist(centroids[c][s], query[s]).v < F64_MAX
    ensures var code := EncodeSpec(DistanceTableSpec(query, centroids, dist))[s] as nat;
      && code < |centroids|
      && (forall c :: 0 <= c < |centroids| ==> dist(centroids[code][s], query[s]).v <= dist(centroids[c][s], query[s]).v)
      && (forall c :: 0 <= c < code ==> dist(centroids[code][s], query[s]).v < dist(centroids[c][s], query[s]).v)
  {
    var dt := DistanceTableSpec(query, centroids, dist);
    assert Candidate(dt, s, 0);
    EncodeSpecIsLowestArgMin(dt, s);
    var code := EncodeSpec(dt)[s] as nat;
    assert dt[code][s] == dist(centroids[code][s], query[s]);
    forall c | 0 <= c < |centroids|
      ensures dist(centroids[code][s], query[s]).v <= dist(centroids[c][s], query[s]).v
      ensures c < code ==> dist(centroids[code][s], query[s]).v < dist(centroids[c][s], query[s]).v
    {
      assert dt[c][s] == dist(centroids[c][s], query[s]);
    }
  }

  // ---------------------------------------------------------------------------
  // Approximate distances

  /** A code every segment of which names a row of the table. */
  predicate CodeInTable(code: PqCode)
  {
    forall s :: 0 <= s < EMBEDDING_M_SEGMENTS ==> code[s] as nat < CENTROIDS_PER_SUBSPACE_CLUSTER
  }

  /** f64 `sum` of the table values the first `n` segments of `code` select, from 0.0. */
  function PartialSum(dt: DistanceTable, code: PqCode, n: nat): Float
    requires CodeInTable(code) && n <= EMBEDDING_M_SEGMENTS
  {
    if n == 0 then Num(0.0) else Add(PartialSum(dt, code, n - 1), dt[code[n - 1]][n - 1])
  }

  /** The table value segment `s` of `code` selects: row `code[s]`, column `s`. */
  function Selected(dt: DistanceTable, code: PqCode, s: nat): Float
    requires CodeInTable(code) && s < EMBEDDING_M_SEGMENTS
  {
    dt[code[s]][s]
  }

  /**
   * The approximate distance of an entry: the sum over segments of the table
   * value its code selects. A code naming a row past the table is an index
   * out of bounds (a panic), `None` here.
   */
  function ApproxDistance(dt: DistanceTable, code: PqCode): (r: Option<Float>)
    ensures r.Some? <==> CodeInTable(code)
  {
    if CodeInTable(code) then Some(PartialSum(dt, code, EMBEDDING_M_SEGMENTS)) else None
  }

  function RealSum(dt: DistanceTable, code: PqCode, n: nat): real
    requires CodeInTable(code) && n <= EMBEDDING_M_SEGMENTS
    requires forall s :: 0 <= s < n ==> Selected(dt, code, s).Num?
  {
    if n == 0 then 0.0 else RealSum(dt, code, n - 1) + Selected(dt, code, n - 1).v
  }

  lemma {:induction false} PartialSumValue(dt: DistanceTable, code: PqCode, n: nat)
    requires CodeInTable(code) && n <= EMBEDDING_M_SEGMENTS
    ensures PartialSum(dt, code, n).NaN? <==> exists s :: 0 <= s < n && Selected(dt, code, s).NaN?
    ensures (forall s :: 0 <= s < n ==> Selected(dt, code, s).Num?) ==>
      PartialSum(dt, code, n) == Num(RealSum(dt, code, n))
  {
    if n > 0 {
      PartialSumValue(dt, code, n - 1);
      assert PartialSum(dt, code, n) == Add(PartialSum(dt, code, n - 1), Selected(dt, code, n - 1));
      if Selected(dt, code, n - 1).NaN? {
        assert exists s :: 0 <= s < n && Selected(dt, code, s).NaN? by {
          assert 0 <= n - 1 < n && Selected(dt, code, n - 1).NaN?;
        }
      }
    }
  }

  /**
   * The approximate distance is NaN exactly when one of the selected table
   * values is NaN, and is otherwise the real sum of the selected values.
   */
  lemma ApproxDistanceValue(dt: DistanceTable, code: PqCode)
    requires CodeInTable(code)
    ensures ApproxDistance(dt, code).Some?
    ensures ApproxDistance(dt, code).value.NaN? <==> exists s :: 0 <= s < EMBEDDING_M_SEGMENTS && Selected(dt, code, s).NaN?
    ensures (forall s :: 0 <= s < EMBEDDING_M_SEGMENTS ==> Selected(dt, code, s).Num?) ==>
      ApproxDistance(dt, code).value == Num(RealSum(dt, code, EMBEDDING_M_SEGMENTS))
  {
    PartialSumValue(dt, code, EMBEDDING_M_SEGMENTS);
  }

  /**
   * The lookup as `search` writes it, `dt[subq][code]`: row `s`, column
   * `code[s]`. Rows have EMBEDDING_M_SEGMENTS entries, so a code of 4 or more
   * is out of bounds (a panic), `None` here.
   */
  function ApproxDistanceAsWritten(dt: DistanceTable, code: PqCode): (r: Option<Float>)
    ensures r.Some? <==> forall s :: 0 <= s < EMBEDDING_M_SEGMENTS ==> code[s] as nat < EMBEDDING_M_SEGMENTS
  {
    if forall s :: 0 <= s < EMBEDDING_M_SEGMENTS ==> code[s] as nat < EMBEDDING_M_SEGMENTS then
      Some(Add(Add(Add(Add(Num(0.0), dt[0][code[0]]), dt[1][code[1]]), dt[2][code[2]]), dt[3][code[3]]))
    else None
  }

  /** Row 4 is the only zero row; every other entry is 1.0. */
  const ROW_FOUR_NEAREST: DistanceTable :=
    var one: TableRow := [Num(1.0), Num(1.0), Num(1.0), Num(1.0)];
    [one, one, one, one, ZERO_ROW, one, one, one]

  /**
   * The transposed lookup fails on codes the encoder produces: on a table
   * whose row 4 is nearest, `encode` gives the code [4, 4, 4, 4], which the
   * lookup as written cannot index, while the corrected lookup gives 0.0.
   */
  lemma AsWrittenLookupFailsOnEncodedCode()
    ensures EncodeSpec(ROW_FOUR_NEAREST) == [4, 4, 4, 4]
    ensures ApproxDistanceAsWritten(ROW_FOUR_NEAREST, EncodeSpec(ROW_FOUR_NEAREST)).None?
    ensures ApproxDistance(ROW_FOUR_NEAREST, EncodeSpec(ROW_FOUR_NEAREST)) == Some(Num(0.0))
  {
    var dt := ROW_FOUR_NEAREST;
    forall s | 0 <= s < EMBEDDING_M_SEGMENTS
      ensures EncodeSpec(dt)[s] == 4
    {
      EncodeSpecTieBreak(dt, s, 4);
    }
    var code := EncodeSpec(dt);
    assert code == [4, 4, 4, 4];
    assert PartialSum(dt, code, 1) == Num(0.0);
    assert PartialSum(dt, code, 2) == Num(0.0);
    assert PartialSum(dt, code, 3) == Num(0.0);
    assert PartialSum(dt, code, 4) == Num(0.0);
  }

  /** Every code the encoder produces is within the table for the corrected lookup. */
  lemma EncodedCodesInTable(dt: DistanceTable)
    ensures CodeInTable(EncodeSpec(dt))
  {
  }

  // ---------------------------------------------------------------------------
  // Scanning a bucket

  /** The codes of the entries under `keys`, in that order. */
  function CodesAt(entries: map<u32, IVListEntry>, keys: seq<u32>): (codes: seq<PqCode>)
    requires forall k :: k in keys ==> k in entries
    ensures |codes| == |keys|
    ensures forall i :: 0 <= i < |keys| ==> codes[i] == entries[keys[i]].pqCode
  {
    seq(|keys|, i requires 0 <= i < |keys| => entries[keys[i]].pqCode)
  }

  /** The codes of a bucket in the order `get_all` yields them: ascending id. */
  function BucketCodes(entries: map<u32, IVListEntry>): seq<PqCode>
  {
    CodesAt(entries, SortedKeys(entries.Keys))
  }

  /** The node a code contributes: none when its distance is NaN. */
  function NodeFor(dt: DistanceTable, code: PqCode): seq<HeapNode>
    requires CodeInTable(code)
  {
    var d := ApproxDistance(dt, code).value;
    if d.Num? then [HeapNode(d.v, code)] else []
  }

  /** The nodes the scan pushes, in order: one per code whose distance is not NaN. */
  function Candidates(dt: DistanceTable, codes: seq<PqCode>): seq<HeapNode>
    requires forall i :: 0 <= i < |codes| ==> CodeInTable(codes[i])
  {
    if |codes| == 0 then []
    else Candidates(dt, codes[..|codes| - 1]) + NodeFor(dt, codes[|codes| - 1])
  }

  /**
   * A node is pushed exactly when some code has that node's code and a
   * number as distance equal to the node's: NaN distances are skipped.
   */
  lemma {:induction false} CandidatesAreNonNaNCodes(dt: DistanceTable, codes: seq<PqCode>, node: HeapNode)
    requires forall i :: 0 <= i < |codes| ==> CodeInTable(codes[i])
    ensures node in Candidates(dt, codes) <==>
      exists i :: 0 <= i < |codes| && codes[i] == node.code && ApproxDistance(dt, codes[i]) == Some(Num(node.distance))
  {
    if |codes| > 0 {
      var front := codes[..|codes| - 1];
      CandidatesAreNonNaNCodes(dt, front, node);
      if exists i :: 0 <= i < |codes| && codes[i] == node.code && ApproxDistance(dt, codes[i]) == Some(Num(node.distance)) {
        var i :| 0 <= i < |codes| && codes[i] == node.code && ApproxDistance(dt, codes[i]) == Some(Num(node.distance));
        if i < |codes| - 1 {
          assert front[i] == codes[i];
        }
      }
      if node in Candidates(dt, front) {
        var i :| 0 <= i < |front| && front[i] == node.code && ApproxDistance(dt, front[i]) == Some(Num(node.distance));
        assert codes[i] == front[i];
      }
    }
  }

  /** Every code of `codes` is within the table. */
  predicate AllInTable(codes: seq<PqCode>)
  {
    forall i :: 0 <= i < |codes| ==> CodeInTable(codes[i])
  }

  /** No node of `nodes` is farther than a node of `rest`. */
  predicate NoneFartherThan(nodes: seq<HeapNode>, rest: multiset<HeapNode>)
  {
    forall a, b :: a in nodes && b in rest ==> a.distance <= b.distance
  }

  /**
   * The RETRIEVE_KNN nearest of `cands`, closest first: the list is sorted,
   * holds min(n, RETRIEVE_KNN) of the candidates, and no candidate left out
   * is closer than one kept. Which of several candidates at the same
   * distance are kept is left open.
   */
  predicate IsNearest(cands: seq<HeapNode>, nodes: seq<HeapNode>)
  {
    && SortedByDistance(nodes)
    && |nodes| == Min(|cands|, RETRIEVE_KNN)
    && multiset(nodes) <= multiset(cands)
    && NoneFartherThan(nodes, multiset(cands) - multiset(nodes))
  }

  /** Draining the heap the candidates leave, sorted, gives their nearest. */
  lemma SortedHeapIsNearest(cands: seq<HeapNode>, items: seq<HeapNode>, nodes: seq<HeapNode>)
    requires items == PushAll([], cands)
    requires SortedByDistance(nodes) && multiset(nodes) == multiset(items) && |nodes| == |items|
    ensures IsNearest(cands, nodes)
  {
    var dropped := DroppedAll([], cands);
    TopK(cands);
    KeptBeforeDroppedReordered(items, nodes, dropped);
    assert multiset(cands) - multiset(nodes) == multiset(dropped);
    forall a, b | a in nodes && b in multiset(cands) - multiset(nodes)
      ensures a.distance <= b.distance
    {
      assert b in dropped;
    }
  }

  /** One more code: the pushed nodes grow by that code's node, if any. */
  lemma CandidatesStep(dt: DistanceTable, codes: seq<PqCode>, i: nat)
    requires i < |codes| && AllInTable(codes[..i]) && CodeInTable(codes[i])
    ensures AllInTable(codes[..i + 1])
    ensures Candidates(dt, codes[..i + 1]) == Candidates(dt, codes[..i]) + NodeFor(dt, codes[i])
  {
    assert codes[..i + 1][..i] == codes[..i];
  }

  /**
   * The `for_each` of the scan: push the node of each code, in order, into
   * `heap`, skipping NaN distances; stop at the first code outside the table
   * (the panic), reporting `false`.
   */
  method PushCodes(heap: BinaryHeapWrapper, dt: DistanceTable, codes: seq<PqCode>) returns (ok: bool)
    requires heap.Valid() && heap.items == []
    modifies heap
    ensures heap.Valid()
    ensures ok <==> AllInTable(codes)
    ensures ok ==> heap.items == PushAll([], Candidates(dt, codes))
  {
    for i := 0 to |codes|
      invariant heap.Valid() && AllInTable(codes[..i])
      invariant heap.items == PushAll([], Candidates(dt, codes[..i]))
    {
      var code := codes[i];
      if !CodeInTable(code) {
        return false;
      }
      CandidatesStep(dt, codes, i);
      var distance := ApproxDistance(dt, code).value;
      if distance.Num? {
        var node := HeapNode(distance.v, code);
        assert NodeFor(dt, code) == [node];
        PushAllSnoc([], Candidates(dt, codes[..i]), node);
        var _ := heap.Push(node);
        assert heap.items == PushAll([], Candidates(dt, codes[..i]) + [node]);
      } else {
        assert NodeFor(dt, code) == [];
        assert Candidates(dt, codes[..i]) + [] == Candidates(dt, codes[..i]);
      }
    }
    assert codes[..|codes|] == codes;
    return true;
  }

  /**
   * The scan of one bucket in `search`: for each entry in id order, sum the
   * table values its code selects and push the sum into a RETRIEVE_KNN
   * max-heap unless it is NaN; then drain the heap sorted. A code outside
   * the table panics.
   */
  method Scan(entries: map<u32, IVListEntry>, dt: DistanceTable) returns (r: Option<seq<HeapNode>>)
    ensures r.None? <==> !AllInTable(BucketCodes(entries))
    ensures r.Some? ==> IsNearest(Candidates(dt, BucketCodes(entries)), r.value)
  {
    var codes := BucketCodes(entries);
    var heap := new BinaryHeapWrapper();
    var ok := PushCodes(heap, dt, codes);
    if !ok {
      return None;
    }
    var nodes := heap.Sorted();
    SortedHeapIsNearest(Candidates(dt, codes), heap.items, nodes);
    return Some(nodes);
  }

  // ---------------------------------------------------------------------------
  // The inverted file

  /** `InvertedIndex`: the buckets, one per coarse cluster, each owned by the index. */
  class InvertedIndex {
    var buckets: seq<AvlWrapper>

    /** No bucket appears twice: each is a separate value owned by the index. */
    ghost predicate Valid()
      reads this
    {
      forall i, j :: 0 <= i < j < |buckets| ==> buckets[i] != buckets[j]
    }

    /** The contents of every bucket, in bucket order. */
    function Contents(): (cs: seq<map<u32, IVListEntry>>)
      reads this, buckets
      ensures |cs| == |buckets|
      ensures forall i :: 0 <= i < |buckets| ==> cs[i] == buckets[i].entries
    {
      seq(|buckets|, i reads this, buckets requires 0 <= i < |buckets| => buckets[i].entries)
    }

    /** `InvertedIndex::empty`: no buckets. */
    constructor Empty()
      ensures Valid() && buckets == []
    {
      buckets := [];
    }

    /** `push`: `value` becomes the last bucket; the earlier buckets are untouched. */
    method Push(value: AvlWrapper)
      requires Valid() && value !in buckets
      modifies this
      ensures Valid()
      ensures buckets == old(buckets) + [value]
      ensures Contents() == old(Contents()) + [value.entries]
    {
      buckets := buckets + [value];
    }

    /** `get_cluster`: bucket `c`; indexing past the buckets panics, `None` here. */
    function GetCluster(c: u8): (bucket: Option<AvlWrapper>)
      reads this
      ensures bucket.Some? <==> c as nat < |buckets|
      ensures bucket.Some? ==> bucket.value in buckets && bucket.value == buckets[c]
    {
      if c as nat < |buckets| then Some(buckets[c]) else None
    }

    /**
     * `compute_distance_table` for the query against the centroids of the
     * codebook: bucket `nearestCentroid` must exist, and more than
     * CENTROIDS_PER_SUBSPACE_CLUSTER centroids overflow the table; both are
     * panics, `None` here.
     */
    method ComputeDistanceTable(query: Embedding, nearestCentroid: u8, centroids: seq<Embedding>,
                                dist: (Segment, Segment) -> Float)
      returns (r: Option<DistanceTable>)
      ensures r.None? <==> nearestCentroid as nat >= |buckets| || |centroids| > CENTROIDS_PER_SUBSPACE_CLUSTER
      ensures r.Some? ==> r.value == DistanceTableSpec(query, centroids, dist)
    {
      var embs := GetCluster(nearestCentroid);
      if embs.None? {
        return None;
      }
      var rows: seq<TableRow> := [];
      for c := 0 to |centroids|
        invariant |rows| == c
        invariant forall k :: 0 <= k < c ==> rows[k] == CentroidRow(centroids[k], query, dist)
      {
        var tmp := new Float[EMBEDDING_M_SEGMENTS](_ => Num(0.0));
        for s := 0 to EMBEDDING_M_SEGMENTS
          invariant forall j :: 0 <= j < s ==> tmp[j] == dist(centroids[c][j], query[j])
        {
          tmp[s] := dist(centroids[c][s], query[s]);
        }
        var row: TableRow := tmp[..];
        rows := rows + [row];
      }
      if |rows| > CENTROIDS_PER_SUBSPACE_CLUSTER {
        return None;
      }
      var table := new TableRow[CENTROIDS_PER_SUBSPACE_CLUSTER](_ => ZERO_ROW);
      for c := 0 to |rows|
        invariant forall k :: 0 <= k < c ==> table[k] == rows[k]
        invariant forall k :: c <= k < CENTROIDS_PER_SUBSPACE_CLUSTER ==> table[k] == ZERO_ROW
      {
        table[c] := rows[c];
      }
      var dt: DistanceTable := table[..];
      return Some(dt);
    }

    /**
     * `add_embedding_to_cluster`: bucket `cluster` must exist (else a panic
     * before an id is taken); the entry is stored under a fresh id from
     * `next_id`, and records `cluster`. No other bucket changes, and every
     * entry stays in the bucket it records.
     */
    method AddEmbeddingToCluster(cluster: u8, dt: DistanceTable, counter: IdCounter) returns (r: Option<u32>)
      requires Valid() && counter.Valid()
      modifies buckets, counter
      ensures Valid() && counter.Valid() && buckets == old(buckets)
      ensures r.None? <==> cluster as nat >= |buckets| || old(counter.id) == U32_MAX
      ensures r.None? ==> Contents() == old(Contents()) && counter.id == old(counter.id) && counter.issued == old(counter.issued)
      ensures r.Some? ==> r.value as int == old(counter.id) as int + 1 && counter.id == r.value
      ensures r.Some? ==> r.value !in old(counter.issued) && counter.issued == old(counter.issued) + {r.value}
      ensures r.Some? ==>
        var bucket: map<u32, IVListEntry> := old(Contents())[cluster][r.value := IVListEntry(EncodeSpec(dt), cluster)];
        Contents() == old(Contents())[cluster as nat := bucket]
      ensures ClusterConsistent(old(Contents())) ==> ClusterConsistent(Contents())
    {
      if cluster as nat >= |buckets| {
        return None;
      }
      ghost var before := Contents();
      var avl := buckets[cluster];
      var id := counter.NextId();
      if id.None? {
        assert Contents() == before;
        return None;
      }
      avl.AddEmbedding(cluster, id.value, dt);
      r := id;
      var bucket: map<u32, IVListEntry> := before[cluster][id.value := IVListEntry(EncodeSpec(dt), cluster)];
      assert Contents() == before[cluster as nat := bucket];
      if ClusterConsistent(before) {
        InsertKeepsClusterConsistent(before, cluster, id.value, EncodeSpec(dt));
      }
    }
  }

  // ---------------------------------------------------------------------------
  // Search

  /**
   * What `search` should answer for one query: the query's coarse cluster
   * and its centroid, the residual, that residual's table against the
   * centroids of the cluster's bucket, and the scan of that bucket with the
   * corrected lookup.
   */
  predicate AnswersQuery(contents: seq<map<u32, IVListEntry>>, centroidsOf: u8 -> seq<Embedding>, q: Embedding,
                         nearest: Embedding -> (u8, Embedding), residual: (Embedding, Embedding) -> Embedding,
                         dist: (Segment, Segment) -> Float, nodes: seq<HeapNode>)
  {
    var (c, centroid) := nearest(q);
    && c as nat < |contents|
    && |centroidsOf(c)| <= CENTROIDS_PER_SUBSPACE_CLUSTER
    && AllInTable(BucketCodes(contents[c]))
    && IsNearest(Candidates(DistanceTableSpec(residual(centroid, q), centroidsOf(c), dist), BucketCodes(contents[c])), nodes)
  }

  /**
   * The query runs into a panic: its cluster has no bucket, the bucket has
   * more centroids than the table has rows, or a code of the bucket is
   * outside the table.
   */
  predicate QueryFails(contents: seq<map<u32, IVListEntry>>, centroidsOf: u8 -> seq<Embedding>, q: Embedding,
                       nearest: Embedding -> (u8, Embedding))
  {
    var c := nearest(q).0;
    || c as nat >= |contents|
    || |centroidsOf(c)| > CENTROIDS_PER_SUBSPACE_CLUSTER
    || !AllInTable(BucketCodes(contents[c]))
  }

  /** A query that has an answer ran into no panic. */
  lemma AnsweredQueryDoesNotFail(contents: seq<map<u32, IVListEntry>>, centroidsOf: u8 -> seq<Embedding>, q: Embedding,
                                 nearest: Embedding -> (u8, Embedding), residual: (Embedding, Embedding) -> Embedding,
                                 dist: (Segment, Segment) -> Float, nodes: seq<HeapNode>)
    requires AnswersQuery(contents, centroidsOf, q, nearest, residual, dist, nodes)
    ensures !QueryFails(contents, centroidsOf, q, nearest)
  {
  }

  /**
   * The body of `search`'s loop for one query: its coarse cluster and
   * centroid (`nearest`, the coarse quantiser), the residual against that
   * centroid (`residual`), the residual's distance table against the
   * bucket's centroids (`centroidsOf`, its `get_centroids`), and the scan of
   * the cluster's bucket.
   */
  method SearchOne(index: InvertedIndex, q: Embedding, centroidsOf: u8 -> seq<Embedding>,
                   nearest: Embedding -> (u8, Embedding), residual: (Embedding, Embedding) -> Embedding,
                   dist: (Segment, Segment) -> Float)
    returns (r: Option<seq<HeapNode>>)
    ensures r.None? <==> QueryFails(index.Contents(), centroidsOf, q, nearest)
    ensures r.Some? ==> AnswersQuery(index.Contents(), centroidsOf, q, nearest, residual, dist, r.value)
  {
    var (c, centroid) := nearest(q);
    var resid := residual(centroid, q);
    var dt := index.ComputeDistanceTable(resid, c, centroidsOf(c), dist);
    var bucket := index.GetCluster(c);
    if dt.None? || bucket.None? {
      return None;
    }
    r := Scan(bucket.value.entries, dt.value);
  }

  /**
   * `search`: one sorted list of the RETRIEVE_KNN nearest codes per query,
   * in query order; a panic on any query fails the whole search.
   */
  method Search(index: InvertedIndex, queries: seq<Embedding>, centroidsOf: u8 -> seq<Embedding>,
                nearest: Embedding -> (u8, Embedding), residual: (Embedding, Embedding) -> Embedding,
                dist: (Segment, Segment) -> Float)
    returns (r: Option<seq<seq<HeapNode>>>)
    ensures r.None? <==> exists i :: 0 <= i < |queries| && QueryFails(index.Contents(), centroidsOf, queries[i], nearest)
    ensures r.Some? ==> |r.value| == |queries|
    ensures r.Some? ==> forall i :: 0 <= i < |queries| ==>
      AnswersQuery(index.Contents(), centroidsOf, queries[i], nearest, residual, dist, r.value[i])
  {
    ghost var contents := index.Contents();
    var results: seq<seq<HeapNode>> := [];
    for i := 0 to |queries|
      invariant index.Contents() == contents
      invariant |results| == i
      invariant forall j :: 0 <= j < i ==>
        AnswersQuery(contents, centroidsOf, queries[j], nearest, residual, dist, results[j])
    {
      var nodes := SearchOne(index, queries[i], centroidsOf, nearest, residual, dist);
      if nodes.None? {
        return None;
      }
      results := results + [nodes.value];
    }
    forall i | 0 <= i < |queries|
      ensures !QueryFails(contents, centroidsOf, queries[i], nearest)
    {
      AnsweredQueryDoesNotFail(contents, centroidsOf, queries[i], nearest, residual, dist, results[i]);
    }
    return Some(results);
  }
}
