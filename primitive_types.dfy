/**
 * Embeddings, their segments, PQ codes and the inverted-list entry, with the
 * conversions between them: flattening an embedding and cutting a flat vector
 * back into segments, product-quantization encoding against a distance table,
 * and the `"[c0, c1, c2, c3];cluster"` text form of an entry.
 */
module PrimitiveTypes {
  import opened Params
  import opened Text

  /** A fixed-length slice of an embedding. */
  type Segment = s: seq<real> | |s| == SEGMENT_DIM witness [0.0, 0.0, 0.0]

  const ZERO_SEGMENT: Segment := [0.0, 0.0, 0.0]

  /** Exactly EMBEDDING_M_SEGMENTS segments; `into_segments` is the sequence itself. */
  type Embedding = e: seq<Segment> | |e| == EMBEDDING_M_SEGMENTS
    witness [ZERO_SEGMENT, ZERO_SEGMENT, ZERO_SEGMENT, ZERO_SEGMENT]

  const ZERO_EMBEDDING: Embedding := [ZERO_SEGMENT, ZERO_SEGMENT, ZERO_SEGMENT, ZERO_SEGMENT]

  /** One sub-centroid index per segment. */
  type PqCode = c: seq<u8> | |c| == EMBEDDING_M_SEGMENTS witness [0, 0, 0, 0]

  /** One centroid per coarse cluster. */
  type Codebook = cb: seq<Embedding> | |cb| == CQ_K_CENTROIDS
    witness [ZERO_EMBEDDING, ZERO_EMBEDDING, ZERO_EMBEDDING, ZERO_EMBEDDING,
      ZERO_EMBEDDING, ZERO_EMBEDDING, ZERO_EMBEDDING, ZERO_EMBEDDING]

  type TableRow = r: seq<Float> | |r| == EMBEDDING_M_SEGMENTS
    witness [Num(0.0), Num(0.0), Num(0.0), Num(0.0)]

  const ZERO_ROW: TableRow := [Num(0.0), Num(0.0), Num(0.0), Num(0.0)]

  /** Indexed `[centroid][segment]`. */
  type DistanceTable = t: seq<TableRow> | |t| == CENTROIDS_PER_SUBSPACE_CLUSTER
    witness [ZERO_ROW, ZERO_ROW, ZERO_ROW, ZERO_ROW, ZERO_ROW, ZERO_ROW, ZERO_ROW, ZERO_ROW]

  /** The unit stored in a bucket; the vector id is the bucket's key. */
  datatype IVListEntry = IVListEntry(pqCode: PqCode, cluster: u8)

  // ---------------------------------------------------------------------------
  // Flattening

  /** The values of `segs`, segment after segment. */
  function Flatten(segs: seq<Segment>): (v: seq<real>)
    ensures |v| == |segs| * SEGMENT_DIM
  {
    if |segs| == 0 then [] else Flatten(segs[..|segs| - 1]) + segs[|segs| - 1]
  }

  lemma {:induction false} FlattenAt(segs: seq<Segment>, s: nat, j: nat)
    requires s < |segs| && j < SEGMENT_DIM
    ensures Flatten(segs)[s * SEGMENT_DIM + j] == segs[s][j]
    decreases |segs|
  {
    var n := |segs| - 1;
    if s < n {
      FlattenAt(segs[..n], s, j);
    }
  }

  /** The embedding whose segment `s` holds `src[s*SEGMENT_DIM .. (s+1)*SEGMENT_DIM]`. */
  function Unflatten(src: seq<real>): (e: Embedding)
    requires |src| >= EMBEDDING_DIM
  {
    seq(EMBEDDING_M_SEGMENTS, s requires 0 <= s < EMBEDDING_M_SEGMENTS =>
      src[s * SEGMENT_DIM .. s * SEGMENT_DIM + SEGMENT_DIM])
  }

  /**
   * `Embedding::to_vec`: appends the segments in order to an empty vector, so
   * value `j` of segment `s` lands at `s*SEGMENT_DIM + j`.
   */
  method ToVec(e: Embedding) returns (arr: seq<real>)
    ensures |arr| == EMBEDDING_DIM
    ensures forall s, j :: 0 <= s < EMBEDDING_M_SEGMENTS && 0 <= j < SEGMENT_DIM ==>
      arr[s * SEGMENT_DIM + j] == e[s][j]
    ensures arr == Flatten(e)
  {
    arr := [];
    var i := 0;
    while i < EMBEDDING_M_SEGMENTS
      invariant 0 <= i <= EMBEDDING_M_SEGMENTS
      invariant arr == Flatten(e[..i])
    {
      assert e[..i + 1][..i] == e[..i];
      arr := arr + e[i];
      i := i + 1;
    }
    assert e[..i] == e;
    forall s, j | 0 <= s < EMBEDDING_M_SEGMENTS && 0 <= j < SEGMENT_DIM
      ensures arr[s * SEGMENT_DIM + j] == e[s][j]
    {
      FlattenAt(e, s, j);
    }
  }

  /**
   * `Embedding::from_base`: copies `src` segment by segment into a zeroed
   * embedding. Only the first EMBEDDING_DIM values are read; a shorter `src`
   * makes the indexing panic, `None` here.
   */
  method FromBase(src: seq<real>) returns (r: Option<Embedding>)
    ensures r.None? <==> |src| < EMBEDDING_DIM
    ensures r.Some? ==> forall s, j :: 0 <= s < EMBEDDING_M_SEGMENTS && 0 <= j < SEGMENT_DIM ==>
      r.value[s][j] == src[s * SEGMENT_DIM + j]
    ensures r.Some? ==> r.value == Unflatten(src)
  {
    if |src| < EMBEDDING_DIM {
      return None;
    }
    var emb := new Segment[EMBEDDING_M_SEGMENTS](_ => ZERO_SEGMENT);
    var last := 0;
    for segment := 0 to EMBEDDING_M_SEGMENTS
      invariant last == segment * SEGMENT_DIM
      invariant forall s :: 0 <= s < segment ==> emb[s] == src[s * SEGMENT_DIM .. s * SEGMENT_DIM + SEGMENT_DIM]
    {
      var seg := new real[SEGMENT_DIM](_ => 0.0);
      for element := last to last + SEGMENT_DIM
        modifies seg
        invariant forall k :: 0 <= k < element - last ==> seg[k] == src[last + k]
      {
        seg[element - last] := src[element];
      }
      assert seg[..] == src[last .. last + SEGMENT_DIM];
      last := last + SEGMENT_DIM;
      emb[segment] := seg[..];
    }
    r := Some(emb[..]);
  }

  /** Cutting a flattened embedding gives the embedding back. */
  lemma UnflattenFlatten(e: Embedding)
    ensures Unflatten(Flatten(e)) == e
  {
    var v := Flatten(e);
    forall s | 0 <= s < EMBEDDING_M_SEGMENTS
      ensures v[s * SEGMENT_DIM .. s * SEGMENT_DIM + SEGMENT_DIM] == e[s]
    {
      forall j | 0 <= j < SEGMENT_DIM
        ensures v[s * SEGMENT_DIM + j] == e[s][j]
      {
        FlattenAt(e, s, j);
      }
    }
  }

  /** Flattening a cut vector of exactly EMBEDDING_DIM values gives the vector back. */
  lemma FlattenUnflatten(v: seq<real>)
    requires |v| == EMBEDDING_DIM
    ensures Flatten(Unflatten(v)) == v
  {
    var e := Unflatten(v);
    var w := Flatten(e);
    forall k | 0 <= k < EMBEDDING_DIM
      ensures w[k] == v[k]
    {
      var s, j := k / SEGMENT_DIM, k % SEGMENT_DIM;
      FlattenAt(e, s, j);
      assert k == s * SEGMENT_DIM + j;
    }
  }

  // ---------------------------------------------------------------------------
  // Encoding

  /**
   * The state of the encoder's scan of column `s` after rows `0..n`: the
   * chosen row and the smallest value seen, starting from row 0 and f64::MAX,
   * and taking a row only when the running minimum is strictly greater.
   */
  function ScanColumn(dt: DistanceTable, s: nat, n: nat): (r: (nat, Float))
    requires s < EMBEDDING_M_SEGMENTS && n <= CENTROIDS_PER_SUBSPACE_CLUSTER
    ensures r.0 < CENTROIDS_PER_SUBSPACE_CLUSTER && r.1.Num?
  {
    if n == 0 then (0, Num(F64_MAX))
    else
      var prev := ScanColumn(dt, s, n - 1);
      if Gt(prev.1, dt[n - 1][s]) then (n - 1, dt[n - 1][s]) else prev
  }

  /** The code `Embedding::encode` computes from a distance table. */
  function EncodeSpec(dt: DistanceTable): (code: PqCode)
    ensures forall s :: 0 <= s < EMBEDDING_M_SEGMENTS ==> code[s] as nat < CENTROIDS_PER_SUBSPACE_CLUSTER
  {
    seq(EMBEDDING_M_SEGMENTS, s requires 0 <= s < EMBEDDING_M_SEGMENTS => ScanColumn(dt, s, CENTROIDS_PER_SUBSPACE_CLUSTER).0 as u8)
  }

  /** Row `c` holds a number below f64::MAX in column `s`, so the encoder can pick it. */
  predicate Candidate(dt: DistanceTable, s: nat, c: nat)
    requires s < EMBEDDING_M_SEGMENTS && c < CENTROIDS_PER_SUBSPACE_CLUSTER
  {
    dt[c][s].Num? && dt[c][s].v < F64_MAX
  }

  /**
   * Row `c` is the lowest-indexed row among the first `n` whose value in
   * column `s` is minimal: no number in that column is smaller, and every
   * earlier row is NaN or strictly larger.
   */
  predicate LowestArgMin(dt: DistanceTable, s: nat, n: nat, c: nat)
    requires s < EMBEDDING_M_SEGMENTS && n <= CENTROIDS_PER_SUBSPACE_CLUSTER
  {
    && c < n
    && Candidate(dt, s, c)
    && (forall k :: 0 <= k < n && dt[k][s].Num? ==> dt[c][s].v <= dt[k][s].v)
    && (forall k :: 0 <= k < c ==> dt[k][s].NaN? || dt[k][s].v > dt[c][s].v)
  }

  lemma {:induction false} ScanColumnChoosesLowestMin(dt: DistanceTable, s: nat, n: nat)
    requires s < EMBEDDING_M_SEGMENTS && n <= CENTROIDS_PER_SUBSPACE_CLUSTER
    ensures (exists c :: 0 <= c < n && Candidate(dt, s, c)) ==>
      LowestArgMin(dt, s, n, ScanColumn(dt, s, n).0) && ScanColumn(dt, s, n).1 == dt[ScanColumn(dt, s, n).0][s]
    ensures (forall c :: 0 <= c < n ==> !Candidate(dt, s, c)) ==> ScanColumn(dt, s, n) == (0, Num(F64_MAX))
  {
    if n > 0 {
      ScanColumnChoosesLowestMin(dt, s, n - 1);
      var prev := ScanColumn(dt, s, n - 1);
      if exists c :: 0 <= c < n - 1 && Candidate(dt, s, c) {
        var c0 := prev.0;
        assert LowestArgMin(dt, s, n - 1, c0);
        if Gt(prev.1, dt[n - 1][s]) {
          assert LowestArgMin(dt, s, n, n - 1);
        } else {
          assert LowestArgMin(dt, s, n, c0);
        }
      } else if Candidate(dt, s, n - 1) {
        assert prev == (0, Num(F64_MAX));
        forall k | 0 <= k < n - 1
          ensures dt[k][s].NaN? || dt[k][s].v >= F64_MAX
        {
          assert !Candidate(dt, s, k);
        }
        assert LowestArgMin(dt, s, n, n - 1);
      } else {
        assert prev == (0, Num(F64_MAX));
        assert !Gt(prev.1, dt[n - 1][s]);
        assert forall c :: 0 <= c < n ==> !Candidate(dt, s, c);
      }
    }
  }

  /** Each code is the lowest-indexed row minimal in its column, or 0 when no row is below f64::MAX. */
  lemma EncodeSpecIsLowestArgMin(dt: DistanceTable, s: nat)
    requires s < EMBEDDING_M_SEGMENTS
    ensures (exists c :: 0 <= c < CENTROIDS_PER_SUBSPACE_CLUSTER && Candidate(dt, s, c)) ==>
      LowestArgMin(dt, s, CENTROIDS_PER_SUBSPACE_CLUSTER, EncodeSpec(dt)[s] as nat)
    ensures (forall c :: 0 <= c < CENTROIDS_PER_SUBSPACE_CLUSTER ==> !Candidate(dt, s, c)) ==> EncodeSpec(dt)[s] == 0
  {
    ScanColumnChoosesLowestMin(dt, s, CENTROIDS_PER_SUBSPACE_CLUSTER);
  }

  /** When a row is minimal in its column, the code is at most that row: ties go to the lowest index. */
  lemma EncodeSpecTieBreak(dt: DistanceTable, s: nat, c: nat)
    requires s < EMBEDDING_M_SEGMENTS && c < CENTROIDS_PER_SUBSPACE_CLUSTER
    requires Candidate(dt, s, c)
    requires forall k :: 0 <= k < CENTROIDS_PER_SUBSPACE_CLUSTER && dt[k][s].Num? ==> dt[c][s].v <= dt[k][s].v
    ensures EncodeSpec(dt)[s] as nat <= c
    ensures dt[EncodeSpec(dt)[s]][s] == dt[c][s]
  {
    EncodeSpecIsLowestArgMin(dt, s);
  }

  lemma {:induction false} ScanColumnReadsOneColumn(dt1: DistanceTable, dt2: DistanceTable, s: nat, n: nat)
    requires s < EMBEDDING_M_SEGMENTS && n <= CENTROIDS_PER_SUBSPACE_CLUSTER
    requires forall c :: 0 <= c < n ==> dt1[c][s] == dt2[c][s]
    ensures ScanColumn(dt1, s, n) == ScanColumn(dt2, s, n)
  {
    if n > 0 {
      ScanColumnReadsOneColumn(dt1, dt2, s, n - 1);
    }
  }

  /** Segments are quantised independently: code `s` depends only on column `s`. */
  lemma EncodeSpecColumnwise(dt1: DistanceTable, dt2: DistanceTable, s: nat)
    requires s < EMBEDDING_M_SEGMENTS
    requires forall c :: 0 <= c < CENTROIDS_PER_SUBSPACE_CLUSTER ==> dt1[c][s] == dt2[c][s]
    ensures EncodeSpec(dt1)[s] == EncodeSpec(dt2)[s]
  {
    ScanColumnReadsOneColumn(dt1, dt2, s, CENTROIDS_PER_SUBSPACE_CLUSTER);
  }

  /**
   * `Embedding::encode`, given the distance table of the embedding against
   * the codebook: a scan over the rows keeping, per segment, the row with the
   * strictly smallest value so far. Every code is below
   * CENTROIDS_PER_SUBSPACE_CLUSTER and is the lowest-indexed minimal row of
   * its column (NaN never wins), or 0 when the column has no number below
   * f64::MAX.
   */
  method Encode(dt: DistanceTable) returns (code: PqCode)
    ensures code == EncodeSpec(dt)
    ensures forall s :: 0 <= s < EMBEDDING_M_SEGMENTS ==> code[s] as nat < CENTROIDS_PER_SUBSPACE_CLUSTER
    ensures forall s :: 0 <= s < EMBEDDING_M_SEGMENTS ==>
      ((exists c :: 0 <= c < CENTROIDS_PER_SUBSPACE_CLUSTER && Candidate(dt, s, c)) ==>
        LowestArgMin(dt, s, CENTROIDS_PER_SUBSPACE_CLUSTER, code[s] as nat))
    ensures forall s :: 0 <= s < EMBEDDING_M_SEGMENTS ==>
      ((forall c :: 0 <= c < CENTROIDS_PER_SUBSPACE_CLUSTER ==> !Candidate(dt, s, c)) ==> code[s] == 0)
  {
    var mins: seq<(nat, Float)> := seq(EMBEDDING_M_SEGMENTS, _ => (0, Num(F64_MAX)));
    for clustNo := 0 to CENTROIDS_PER_SUBSPACE_CLUSTER
      invariant |mins| == EMBEDDING_M_SEGMENTS
      invariant forall s :: 0 <= s < EMBEDDING_M_SEGMENTS ==> mins[s] == ScanColumn(dt, s, clustNo)
    {
      for segNo := 0 to EMBEDDING_M_SEGMENTS
        invariant |mins| == EMBEDDING_M_SEGMENTS
        invariant forall s :: 0 <= s < segNo ==> mins[s] == ScanColumn(dt, s, clustNo + 1)
        invariant forall s :: segNo <= s < EMBEDDING_M_SEGMENTS ==> mins[s] == ScanColumn(dt, s, clustNo)
      {
        if Gt(mins[segNo].1, dt[clustNo][segNo]) {
          mins := mins[segNo := (clustNo, dt[clustNo][segNo])];
        }
      }
    }
    code := seq(EMBEDDING_M_SEGMENTS, i requires 0 <= i < EMBEDDING_M_SEGMENTS => mins[i].0 as u8);
    forall s | 0 <= s < EMBEDDING_M_SEGMENTS {
      EncodeSpecIsLowestArgMin(dt, s);
    }
  }

  // ---------------------------------------------------------------------------
  // Text form of an entry

  /** `format!("{:?}", code)`: `[c0, c1, c2, c3]`. */
  function CodeToString(code: PqCode): string
  {
    DebugList(code)
  }

  /** `IVListEntry::to_string`: `"[c0, c1, c2, c3];cluster"`. */
  function EntryToString(e: IVListEntry): (s: string)
    ensures |s| > 0 && s[0] == '['
    ensures ';' in s
  {
    CodeToString(e.pqCode) + ";" + NatToString(e.cluster)
  }

  /**
   * The code that `code_from_src` builds from the comma-separated pieces of
   * its trimmed input: piece `i` parsed as a u32 and truncated to u8 goes to
   * position `i`, positions without a piece stay 0. A piece that does not
   * parse, or a fifth piece, panics.
   */
  function CodeFromPieces(pieces: seq<string>): (r: Option<PqCode>)
    ensures |pieces| > EMBEDDING_M_SEGMENTS ==> r.None?
    ensures r.Some? ==> forall i :: |pieces| <= i < EMBEDDING_M_SEGMENTS ==> r.value[i] == 0
  {
    if |pieces| > EMBEDDING_M_SEGMENTS then None
    else if exists i :: 0 <= i < |pieces| && ParseUnsigned(pieces[i], U32_MAX).None? then None
    else
      var code: PqCode := seq(EMBEDDING_M_SEGMENTS, i requires 0 <= i < EMBEDDING_M_SEGMENTS =>
        if i < |pieces| then (ParseUnsigned(pieces[i], U32_MAX).value % 256) as u8 else 0);
      Some(code)
  }

  /**
   * `code_from_src`: delete every space, drop the first and the last
   * character (a panic when fewer than two remain), split the rest on `,`.
   */
  function ParseCode(source: string): (r: Option<PqCode>)
    ensures |source| < 2 ==> r.None?
  {
    var noSpaces := RemoveAll(source, ' ');
    if |noSpaces| < 2 then None
    else CodeFromPieces(Split(noSpaces[1..|noSpaces| - 1], ','))
  }

  /** `code_from_src` as written: fills the code piece by piece; `None` stands for its panics. */
  method CodeFromSrc(source: string) returns (r: Option<PqCode>)
    ensures r == ParseCode(source)
  {
    var noSpaces := RemoveAll(source, ' ');
    if |noSpaces| < 2 {
      return None;
    }
    noSpaces := noSpaces[1..|noSpaces| - 1];
    var pieces := Split(noSpaces, ',');
    var code: PqCode := [0, 0, 0, 0];
    var ind := 0;
    while ind < |pieces|
      invariant 0 <= ind <= |pieces|
      invariant ind <= EMBEDDING_M_SEGMENTS
      invariant forall i :: 0 <= i < ind ==> ParseUnsigned(pieces[i], U32_MAX).Some?
      invariant forall i :: 0 <= i < EMBEDDING_M_SEGMENTS ==>
        code[i] == if i < ind then (ParseUnsigned(pieces[i], U32_MAX).value % 256) as u8 else 0
    {
      var parsed := ParseUnsigned(pieces[ind], U32_MAX);
      if parsed.None? || ind >= EMBEDDING_M_SEGMENTS {
        assert |pieces| > EMBEDDING_M_SEGMENTS || ParseUnsigned(pieces[ind], U32_MAX).None?;
        return None;
      }
      code := code[ind := (parsed.value % 256) as u8];
      ind := ind + 1;
    }
    assert |pieces| <= EMBEDDING_M_SEGMENTS;
    assert !exists i :: 0 <= i < |pieces| && ParseUnsigned(pieces[i], U32_MAX).None?;
    assert CodeFromPieces(pieces).value == code;
    r := Some(code);
  }

  /**
   * `IVListEntry::from_str`: split on `;`, parse the first piece as a code and
   * the second as a u8 cluster; a missing piece or a failed parse panics.
   */
  function EntryFromStr(source: string): (r: Option<IVListEntry>)
    ensures r.Some? ==> ';' in source
  {
    var pieces := Split(source, ';');
    assert |pieces| >= 2 ==> source[|pieces[0]|] == ';';
    if |pieces| < 2 then None
    else
      var code := ParseCode(pieces[0]);
      var cluster := ParseUnsigned(pieces[1], U8_MAX);
      if code.None? || cluster.None? then None
      else Some(IVListEntry(code.value, cluster.value))
  }

  /** A printed list holds no character other than digits, `[`, `]`, `,` and spaces. */
  lemma {:induction false} DebugItemsIsPlain(xs: seq<nat>, c: char)
    requires |xs| >= 1
    requires !IsDigit(c) && c != ',' && c != ' '
    ensures c !in DebugItems(xs)
    decreases |xs|
  {
    NatToStringHasOnlyDigits(xs[0], c);
    if |xs| > 1 {
      DebugItemsIsPlain(xs[1..], c);
    }
  }

  lemma DebugListIsPlain(xs: seq<nat>, c: char)
    requires |xs| >= 1
    requires !IsDigit(c) && c != ',' && c != ' ' && c != '[' && c != ']'
    ensures c !in DebugList(xs)
  {
    DebugItemsIsPlain(xs, c);
  }

  /** `code_from_src` reads back what `{:?}` printed for a code, whatever spaces precede it. */
  lemma ParseCodeRoundTrip(code: PqCode, pad: string)
    requires forall i :: 0 <= i < |pad| ==> pad[i] == ' '
    ensures ParseCode(pad + CodeToString(code)) == Some(code)
  {
    DebugListWithoutSpaces(code, pad);
    NumberTextsHaveNoComma(code);
    PiecesOfCode(code);
    ParseBracketed(pad + CodeToString(code), NumberTexts(code), code);
  }

  /** Text whose spaces removed is `[p0,p1,...]`, for comma-free pieces that make `code`, parses as `code`. */
  lemma ParseBracketed(source: string, parts: seq<string>, code: PqCode)
    requires |parts| >= 1
    requires forall p :: p in parts ==> ',' !in p
    requires RemoveAll(source, ' ') == "[" + Join(parts, ',') + "]"
    requires CodeFromPieces(parts) == Some(code)
    ensures ParseCode(source) == Some(code)
  {
    var noSpaces := RemoveAll(source, ' ');
    assert noSpaces[1..|noSpaces| - 1] == Join(parts, ',');
    SplitJoin(parts, ',');
  }

  lemma NumberTextsHaveNoComma(xs: seq<nat>)
    ensures forall p :: p in NumberTexts(xs) ==> ',' !in p
  {
    var parts := NumberTexts(xs);
    forall p | p in parts
      ensures ',' !in p
    {
      var i :| 0 <= i < |parts| && parts[i] == p;
      NatToStringHasOnlyDigits(xs[i], ',');
    }
  }

  /** The printed digits of each position of a code rebuild the code. */
  lemma PiecesOfCode(code: PqCode)
    ensures CodeFromPieces(NumberTexts(code)) == Some(code)
  {
    var parts := NumberTexts(code);
    forall i | 0 <= i < EMBEDDING_M_SEGMENTS
      ensures ParseUnsigned(parts[i], U32_MAX) == Some(code[i] as nat)
    {
      NatToStringParses(code[i], U32_MAX);
    }
    assert CodeFromPieces(parts).value == code;
  }

  /**
   * `IVListEntry::from_str` undoes `IVListEntry::to_string`, also when
   * spaces precede the text (as they do after the `:` of a serialised bucket).
   */
  lemma EntryRoundTrip(e: IVListEntry, pad: string)
    requires forall i :: 0 <= i < |pad| ==> pad[i] == ' '
    ensures EntryFromStr(pad + EntryToString(e)) == Some(e)
  {
    var p0 := pad + CodeToString(e.pqCode);
    var k := NatToString(e.cluster);
    assert pad + EntryToString(e) == Join([p0, k], ';');
    DebugListIsPlain(e.pqCode, ';');
    NatToStringHasOnlyDigits(e.cluster, ';');
    assert ';' !in pad;
    SplitJoin([p0, k], ';');
    ParseCodeRoundTrip(e.pqCode, pad);
    NatToStringParses(e.cluster, U8_MAX);
  }
}
