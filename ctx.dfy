/**
 * The search context: the "nearest" selector chosen from the configured
 * distance function, and the per-cluster slots that memoise loaded
 * embedding holders.
 */
module Ctx {
  import opened Params
  import opened DbAccess

  datatype DistanceFunctionSelection = Cosine | Euclidean

  /** The two `DFUtility` implementations. */
  datatype Selector = CosineDistFn | DefaultDistFn

  /**
   * `DFUtility::nearest`: for cosine similarity the larger score is nearer
   * (`i32::max`), for every other distance the smaller one (`i32::min`).
   */
  function Nearest(sel: Selector, a: i32, b: i32): (r: i32)
    ensures r == a || r == b
    ensures sel.CosineDistFn? ==> r >= a && r >= b
    ensures sel.DefaultDistFn? ==> r <= a && r <= b
  {
    match sel
    case CosineDistFn => if a >= b then a else b
    case DefaultDistFn => if a <= b then a else b
  }

  /** Both selectors are commutative, idempotent and associative, so the order of a reduction does not matter. */
  lemma NearestLaws(sel: Selector, a: i32, b: i32, c: i32)
    ensures Nearest(sel, a, b) == Nearest(sel, b, a)
    ensures Nearest(sel, a, a) == a
    ensures Nearest(sel, Nearest(sel, a, b), c) == Nearest(sel, a, Nearest(sel, b, c))
  {
  }

  /** The nearest of a non-empty list of scores, reduced from the left as `Iterator::reduce` does. */
  function NearestOf(sel: Selector, xs: seq<i32>): i32
    requires |xs| >= 1
  {
    if |xs| == 1 then xs[0] else Nearest(sel, NearestOf(sel, xs[..|xs| - 1]), xs[|xs| - 1])
  }

  /** The reduction picks one of the scores, and it is at least as near as every score. */
  lemma {:induction false} NearestOfIsExtreme(sel: Selector, xs: seq<i32>)
    requires |xs| >= 1
    ensures NearestOf(sel, xs) in xs
    ensures sel.CosineDistFn? ==> forall i :: 0 <= i < |xs| ==> NearestOf(sel, xs) >= xs[i]
    ensures sel.DefaultDistFn? ==> forall i :: 0 <= i < |xs| ==> NearestOf(sel, xs) <= xs[i]
    decreases |xs|
  {
    if |xs| > 1 {
      var front := xs[..|xs| - 1];
      NearestOfIsExtreme(sel, front);
      assert forall i :: 0 <= i < |front| ==> front[i] == xs[i];
    }
  }

  /** The selector `load_context` installs: cosine for `Cosine`, the default for every other choice. */
  function SelectorFor(df: DistanceFunctionSelection): (s: Selector)
    ensures s == CosineDistFn <==> df == Cosine
    ensures s == DefaultDistFn <==> df != Cosine
  {
    match df
    case Cosine => CosineDistFn
    case _ => DefaultDistFn
  }

  /**
   * Why a cluster could not be loaded: an index past the slots (a panic in
   * the source), or an I/O failure while opening the cluster's database or
   * loading its holder.
   */
  datatype LoadError = NoSuchCluster | OpenFailed

  datatype LoadResult = LoadOk(holder: EmbeddingHolder) | LoadErr(error: LoadError)

  class Context {
    const distanceFunction: Selector
    var loadedClusters: seq<Option<EmbeddingHolder>>

    /**
     * `load_context`: one empty slot per codebook entry and the selector of
     * `df`; opening the environment and loading the inverted list and the
     * codebook are I/O, so only the codebook's size comes in.
     */
    constructor LoadContext(df: DistanceFunctionSelection, codebookSize: nat)
      ensures distanceFunction == SelectorFor(df)
      ensures |loadedClusters| == codebookSize
      ensures forall i :: 0 <= i < codebookSize ==> loadedClusters[i].None?
    {
      distanceFunction := SelectorFor(df);
      loadedClusters := seq(codebookSize, _ => None);
    }

    /**
     * `load_cluster`: a filled slot is returned as it is, without any I/O; an
     * empty slot is filled with a newly loaded holder when the database opens
     * (`dbOpens`), and only that slot changes. A cluster past the slots
     * panics on the index, `NoSuchCluster` here.
     */
    method LoadCluster(cluster: ClusterId, dbOpens: bool) returns (r: LoadResult)
      modifies this
      ensures cluster >= old(|loadedClusters|) ==>
        r == LoadErr(NoSuchCluster) && loadedClusters == old(loadedClusters)
      ensures cluster < old(|loadedClusters|) && old(loadedClusters[cluster]).Some? ==>
        r == LoadOk(old(loadedClusters[cluster]).value) && loadedClusters == old(loadedClusters)
      ensures cluster < old(|loadedClusters|) && old(loadedClusters[cluster]).None? && !dbOpens ==>
        r == LoadErr(OpenFailed) && loadedClusters == old(loadedClusters)
      ensures cluster < old(|loadedClusters|) && old(loadedClusters[cluster]).None? && dbOpens ==>
        r.LoadOk? && fresh(r.holder) && r.holder.embeddings == map[]
        && loadedClusters == old(loadedClusters)[cluster := Some(r.holder)]
    {
      if cluster >= |loadedClusters| {
        return LoadErr(NoSuchCluster);
      }
      match loadedClusters[cluster]
      case Some(holder) =>
        r := LoadOk(holder);
      case None =>
        if !dbOpens {
          return LoadErr(OpenFailed);
        }
        var holder := new EmbeddingHolder();
        loadedClusters := loadedClusters[cluster := Some(holder)];
        r := LoadOk(holder);
    }
  }
}
