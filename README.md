# Kathleen IVF-PQ index, modelled in Dafny

Kathleen indexes text embeddings for nearest-neighbour search with an
inverted file over product-quantised codes (IVF-PQ). This project models the
core of that index and proves properties of the model:

- **Embeddings and codes** (`primitive_types.dfy`, module `PrimitiveTypes`).
  An embedding of EMBEDDING_DIM = 12 reals is cut into EMBEDDING_M_SEGMENTS = 4
  segments of 3. `encode` turns a distance table with one row per centroid
  (CENTROIDS_PER_SUBSPACE_CLUSTER = 8 rows) into a PQ code: for each segment,
  the lowest-numbered centroid with the strictly smallest distance. An
  inverted-list entry (a code and its cluster) has a text form,
  `[c0, c1, c2, c3];cluster`, and a parser for it.
- **The bounded max-heap** (`maxheap_wrapper.dfy`, module `MaxHeap`). It keeps
  the RETRIEVE_KNN = 10 nodes of smallest distance, evicting the current
  maximum when a nearer node arrives. It hands them out sorted by distance.
- **The inverted index** (`ivfpq.dfy`, module `Ivfpq`). It holds one bucket per
  coarse cluster, each bucket a map from vector id to entry, plus:
  - a monotonic u32 id counter;
  - the distance table of a query against the centroids;
  - adding an embedding to a cluster;
  - `search`: for each query, scan the bucket of its coarse cluster, sum the
    table entries selected by each code, and keep the ten nearest codes.
- **Bucket serialisation** (`serialization.dfy`, module `Serialization`). A
  bucket's text is `{`, then one `id: entry` line per key in ascending key
  order, each ending in a newline, then `}`. It also covers the parser of that
  text.
- **Persistence** (`db_api.dfy`, module `DbApi`). A key-value store holds the
  codebook under `codebook` and the index under `ivf`. Writes follow a
  compare-before-write policy: read the key, then put when it is absent,
  delete and put when it differs, and write nothing when it is equal. Loading
  falls back to defaults.
- **The database-access caches** (`dbaccess.dfy`, module `DbAccess`). The
  embedding holder and the segment holder cache containers by id and answer
  "is everything cached?" queries.
- **The search context** (`ctx.dfy`, module `Ctx`). It holds:
  - the "nearest" selector chosen by the distance function (max for cosine,
    min otherwise);
  - the per-cluster slots that memoise loaded embedding holders.

Shared constants, the fixed-width integer types and the `Float` type
(`Num(real)` or `NaN`) live in `params.dfy`. The text utilities the source
takes from Rust's standard library live in `text.dfy`: split, join, space
removal, decimal printing and parsing, and `Debug` list formatting.

Every Rust panic on a reachable input (`unwrap`, `expect`, an index out of
bounds) is an error result of the model: `None`, `Err(Corrupt)`,
`LoadErr(NoSuchCluster)`. It is never a precondition.

Two readings of the source were needed to give it one consistent meaning:

- `AvlWrapper::add_embedding` (src/ivfpq/ivfpq.rs:69) passes a distance table
  to `Embedding::encode`, whose signature takes a codebook and computes the
  table itself. The model's `encode` takes the table: rows are centroids and
  columns are segments, the layout of the `DistanceTable` type.
- The `Load` arm of `DbAccess::get_cached`
  (src/engine/indexing/db/dbaccess.rs:260-265) does not compile as written: a
  value-producing `if` without `else` is followed by `None`. It also calls a
  `update_references_to` that is defined nowhere. The model follows the
  comments above the function and answers a fully cached load with the
  embedding holder.

## Model

| member | source | states |
|---|---|---|
| Params.Add | src/ivfpq/ivfpq.rs:251-254 | Summing f64 distances propagates NaN: the sum is NaN exactly when an operand is |
| Text.Split | src/ivfpq/serialization.rs:57 | `str::split`: at least one piece, no piece holds the delimiter, and joining the pieces with it gives the input back |
| Text.SplitJoin | src/ivfpq/serialization.rs:57 | Splitting the join of delimiter-free pieces gives back exactly those pieces |
| Text.SplitNoDelimiter | src/ivfpq/serialization.rs:61 | A text without the delimiter splits into itself alone |
| Text.SplitPrefix | src/ivfpq/serialization.rs:57 | A delimiter-free prefix followed by the delimiter is the first piece, and the rest splits on its own |
| Text.TerminatedJoin | src/ivfpq/serialization.rs:45-50 | Lines that each end in a newline form their newline join plus one final newline |
| Text.RemoveAll | src/ivfpq/primitive_types.rs:102 | `replace(' ', "")`: no occurrence is left and the text never grows |
| Text.RemoveAllAppend | src/ivfpq/primitive_types.rs:102 | Removing a character distributes over concatenation |
| Text.RemoveAllAbsent | src/ivfpq/primitive_types.rs:102 | Removing a character a text does not contain leaves it unchanged |
| Text.RemoveAllOnly | src/ivfpq/primitive_types.rs:102 | Removing spaces from a run of spaces leaves nothing |
| Text.RemoveAllBracketed | src/ivfpq/primitive_types.rs:102-104 | Removing spaces from a space padding followed by a bracketed list leaves the brackets around the list's items with spaces removed |
| Text.DigitChar | src/ivfpq/primitive_types.rs:145 | Every digit value prints as a decimal digit character |
| Text.DigitRoundTrip | src/ivfpq/primitive_types.rs:106 | A printed digit reads back as its value |
| Text.NatToString | src/ivfpq/serialization.rs:48 | `to_string` of an unsigned integer is a non-empty run of decimal digits |
| Text.DigitsOfNatToString | src/ivfpq/serialization.rs:48 | The digits `to_string` prints have exactly the printed value |
| Text.ParseUnsigned | src/ivfpq/serialization.rs:64 | `parse::<u32>` / `parse::<u8>`: a successful parse is at most the type's maximum |
| Text.NatToStringParses | src/ivfpq/serialization.rs:64 | Parsing the printed form of a value within the type's range gives the value back |
| Text.NatToStringHasOnlyDigits | src/ivfpq/primitive_types.rs:145 | A printed number contains no non-digit character (so no separator) |
| Text.NumberTexts | src/ivfpq/primitive_types.rs:145 | One printed number per list element |
| Text.DebugItemsWithoutSpaces | src/ivfpq/primitive_types.rs:102-106 | `{:?}` list items with their spaces removed are the comma join of the printed numbers |
| Text.DebugListWithoutSpaces | src/ivfpq/primitive_types.rs:101-106 | A `{:?}` list after leading spaces, with spaces removed, is `[` + comma-joined numbers + `]` |
| PrimitiveTypes.Flatten | src/ivfpq/primitive_types.rs:65-71 | Concatenating the segments gives SEGMENT_DIM values per segment |
| PrimitiveTypes.FlattenAt | src/ivfpq/primitive_types.rs:65-71 | Value `j` of segment `s` lands at index `s*SEGMENT_DIM + j` |
| PrimitiveTypes.ToVec | src/ivfpq/primitive_types.rs:65-71 | `to_vec` yields EMBEDDING_DIM values, segment after segment, and equals the flattening |
| PrimitiveTypes.FromBase | src/ivfpq/primitive_types.rs:33-45 | `from_base` fails exactly on inputs shorter than EMBEDDING_DIM; otherwise segment `s`, value `j` is input `s*SEGMENT_DIM + j` |
| PrimitiveTypes.UnflattenFlatten | src/ivfpq/primitive_types.rs:33-71 | `from_base(to_vec(e)) == e` |
| PrimitiveTypes.FlattenUnflatten | src/ivfpq/primitive_types.rs:33-71 | `to_vec(from_base(v)) == v` for every 12-value vector |
| PrimitiveTypes.ScanColumn | src/ivfpq/primitive_types.rs:75-82 | The running minimum of one segment's column stays a valid centroid number with a non-NaN distance |
| PrimitiveTypes.EncodeSpec | src/ivfpq/primitive_types.rs:73-86 | Definition of `encode`'s result, segment by segment the end of the column scan; every position names one of the 8 centroids (see EncodeSpecIsLowestArgMin) |
| PrimitiveTypes.ScanColumnChoosesLowestMin | src/ivfpq/primitive_types.rs:75-82 | The scan ends on the lowest-numbered centroid with the strictly smallest non-NaN distance below f64::MAX, or on (0, f64::MAX) when there is none |
| PrimitiveTypes.EncodeSpecIsLowestArgMin | src/ivfpq/primitive_types.rs:73-86 | Each code position is the lowest arg-min of its segment's column, or 0 when no distance is below f64::MAX |
| PrimitiveTypes.EncodeSpecTieBreak | src/ivfpq/primitive_types.rs:79 | The strict `>` keeps the first of equal minima: the code is at most any minimising centroid and has the same distance |
| PrimitiveTypes.ScanColumnReadsOneColumn | src/ivfpq/primitive_types.rs:78-82 | The scan for a segment reads only that segment's column |
| PrimitiveTypes.EncodeSpecColumnwise | src/ivfpq/primitive_types.rs:73-86 | Tables that agree on a segment's column encode that segment alike |
| PrimitiveTypes.Encode | src/ivfpq/primitive_types.rs:73-86 | The loop computes the arg-min code; every position names one of the 8 centroids |
| PrimitiveTypes.EntryToString | src/ivfpq/primitive_types.rs:143-147 | Definition of `to_string`: the `{:?}` code, `;`, the cluster; it starts with `[` and holds the `;` the reader splits on (see EntryRoundTrip) |
| PrimitiveTypes.CodeFromPieces | src/ivfpq/primitive_types.rs:106 | Definition of the piece loop: more than 4 pieces fail, and positions without a piece stay 0 (see PiecesOfCode) |
| PrimitiveTypes.ParseCode | src/ivfpq/primitive_types.rs:101-108 | Definition of `code_from_src`; a text too short to strip two characters from fails (see ParseCodeRoundTrip) |
| PrimitiveTypes.EntryFromStr | src/ivfpq/primitive_types.rs:128-136 | Definition of `IVListEntry::from_str`; it succeeds only on a text holding `;` (see EntryRoundTrip) |
| PrimitiveTypes.CodeFromSrc | src/ivfpq/primitive_types.rs:101-108 | `code_from_src` agrees with the parse specification: fails on too short input, on a fifth piece or on a bad number, and leaves missing positions 0 |
| PrimitiveTypes.DebugItemsIsPlain | src/ivfpq/primitive_types.rs:145 | The items of a `{:?}` code hold only digits, commas and spaces |
| PrimitiveTypes.DebugListIsPlain | src/ivfpq/primitive_types.rs:145 | A `{:?}` code holds no character but digits, commas, spaces and brackets |
| PrimitiveTypes.NumberTextsHaveNoComma | src/ivfpq/primitive_types.rs:106 | No printed code position contains the comma the parser splits on |
| PrimitiveTypes.PiecesOfCode | src/ivfpq/primitive_types.rs:106 | The printed positions of a code parse back to that code |
| PrimitiveTypes.ParseBracketed | src/ivfpq/primitive_types.rs:101-108 | A text that reads as a bracketed comma list of a code's pieces parses to that code |
| PrimitiveTypes.ParseCodeRoundTrip | src/ivfpq/primitive_types.rs:101-108 | `code_from_src` of the `{:?}` form of a code, after any leading spaces, gives the code back |
| PrimitiveTypes.EntryRoundTrip | src/ivfpq/primitive_types.rs:128-147 | `IVListEntry::from_str(to_string(e))`, after any leading spaces, gives `e` back |
| MaxHeap.MaxIndex | src/ivfpq/maxheap_wrapper.rs:28 | `peek` of a max-heap: a node whose distance is at least every other (the first such node where several tie) |
| MaxHeap.MaxDistance | src/ivfpq/maxheap_wrapper.rs:28-29 | The distance of `peek`: one of the held distances and at least every other |
| MaxHeap.RemoveAt | src/ivfpq/maxheap_wrapper.rs:30 | `pop` removes exactly that one node and keeps the others |
| MaxHeap.PushSpec | src/ivfpq/maxheap_wrapper.rs:26-38 | A push never takes the heap past its capacity RETRIEVE_KNN; among equal maxima it evicts the first (see PushSpecCases for the tie-agnostic statement) |
| MaxHeap.PushSpecCases | src/ivfpq/maxheap_wrapper.rs:26-38 | Below capacity the node is added; when full, a nearer node replaces the maximum; a node that is not nearer changes nothing |
| MaxHeap.PushStepSize | src/ivfpq/maxheap_wrapper.rs:26-38 | After a push the heap holds min(n+1, 10) nodes; something is dropped only when it was full |
| MaxHeap.PushStepConserves | src/ivfpq/maxheap_wrapper.rs:26-38 | Kept plus dropped nodes are exactly the old nodes plus the pushed one |
| MaxHeap.PushStepOrder | src/ivfpq/maxheap_wrapper.rs:29 | Every kept node is at most as far as every dropped node |
| MaxHeap.PushKeepsOrder | src/ivfpq/maxheap_wrapper.rs:26-38 | A push preserves "kept before dropped" over the whole history |
| MaxHeap.PushAll | src/ivfpq/maxheap_wrapper.rs:26-38 | A sequence of pushes never exceeds capacity |
| MaxHeap.PushAllSize | src/ivfpq/maxheap_wrapper.rs:26-38 | After pushing `xs`, the heap holds min(n + \|xs\|, 10) nodes |
| MaxHeap.PushAllConserves | src/ivfpq/maxheap_wrapper.rs:26-38 | Kept plus dropped nodes are exactly the initial nodes plus everything pushed |
| MaxHeap.PushAllKeepsSmallest | src/ivfpq/maxheap_wrapper.rs:26-38 | Every kept node is at most as far as every node dropped along the way |
| MaxHeap.KeptBeforeDroppedReordered | src/ivfpq/maxheap_wrapper.rs:39-45 | Reordering the kept nodes (as `sorted` does) keeps them no farther than the dropped ones |
| MaxHeap.TopK | src/ivfpq/maxheap_wrapper.rs:26-38 | From an empty heap, pushing `xs` keeps min(\|xs\|, 10) nodes, loses none, and keeps the nearest |
| MaxHeap.PushAllSnoc | src/ivfpq/maxheap_wrapper.rs:26-38 | Pushing one more node is one more heap step |
| MaxHeap.Insert | src/ivfpq/maxheap_wrapper.rs:41 | Inserting into a list sorted by distance keeps it sorted and adds exactly that node |
| MaxHeap.SortByDistance | src/ivfpq/maxheap_wrapper.rs:39-45 | `sort` gives a permutation ordered by distance |
| MaxHeap.BinaryHeapWrapper.constructor | src/ivfpq/maxheap_wrapper.rs:22-24 | A new heap is empty |
| MaxHeap.BinaryHeapWrapper.Push | src/ivfpq/maxheap_wrapper.rs:26-38 | `push` always returns `Ok` and leaves the nodes of the push specification |
| MaxHeap.BinaryHeapWrapper.Sorted | src/ivfpq/maxheap_wrapper.rs:39-45 | `sorted` returns the heap's nodes, at most 10, as a permutation ordered by distance |
| Ivfpq.HasLeast | src/ivfpq/serialization.rs:47 | Every non-empty set of u32 keys has a least element |
| Ivfpq.LeastKey | src/ivfpq/serialization.rs:47 | The least key of a non-empty key set is in the set and below every other key |
| Ivfpq.SortedKeys | src/ivfpq/serialization.rs:46-48 | The AVL map's in-order traversal visits every key exactly once, strictly ascending |
| Ivfpq.AscendingCons | src/ivfpq/serialization.rs:47 | A key below every key of an ascending list can go in front |
| Ivfpq.AvlWrapper.constructor | src/ivfpq/ivfpq.rs:48-50 | A new bucket is empty |
| Ivfpq.AvlWrapper.AddEmbedding | src/ivfpq/ivfpq.rs:68-75 | The bucket stores, under the vector id, the encoded code with its cluster, replacing any old entry |
| Ivfpq.InsertKeepsClusterConsistent | src/ivfpq/ivfpq.rs:150-153 | Storing an entry that records cluster `c` into bucket `c` keeps every entry in the bucket it records |
| Ivfpq.IdCounter.constructor | src/ivfpq/ivfpq.rs:220 | The counter starts at 1 with no id issued |
| Ivfpq.IdCounter.NextId | src/ivfpq/ivfpq.rs:219-226 | `next_id` returns the previous value plus one: ids start at 2, increase strictly, never repeat; the overflow at u32::MAX is an error |
| Ivfpq.CentroidRow | src/ivfpq/ivfpq.rs:118-131 | Definition: a centroid's row holds the distance of each of its segments to the query's segment; the closed form the table loop is proved against |
| Ivfpq.DistanceTableSpec | src/ivfpq/ivfpq.rs:111-139 | Definition of the table: row `c` is centroid `c`'s row and rows past the last centroid are zero (see DistanceTableEntries) |
| Ivfpq.DistanceTableEntries | src/ivfpq/ivfpq.rs:111-139 | Entry (c, s) is the distance between centroid c's and the query's segment s; rows past the centroids are 0.0 |
| Ivfpq.EncodePicksNearestCentroid | src/ivfpq/primitive_types.rs:73-86 | Encoding the table of a query picks, per segment, a centroid at minimal distance, the lowest-numbered on ties |
| Ivfpq.PartialSumValue | src/ivfpq/ivfpq.rs:251-254 | The summed code distance is NaN exactly when a selected entry is, and otherwise is the real sum of the entries |
| Ivfpq.ApproxDistance | src/ivfpq/ivfpq.rs:251-254 | Corrected definition of an entry's distance, `dt[code[s]][s]` summed; defined exactly on codes naming rows of the table (see ApproxDistanceValue) |
| Ivfpq.ApproxDistanceAsWritten | src/ivfpq/ivfpq.rs:251-254 | The lookup `dt[subq][code]` as written; defined exactly on codes below 4, the row length (see AsWrittenLookupFailsOnEncodedCode) |
| Ivfpq.ApproxDistanceValue | src/ivfpq/ivfpq.rs:251-254 | The corrected lookup `dt[code[s]][s]` is defined on every in-table code and sums its selected entries |
| Ivfpq.AsWrittenLookupFailsOnEncodedCode | src/ivfpq/ivfpq.rs:253 | On a table where centroid 4 is nearest, `encode` gives [4, 4, 4, 4]; `dt[subq][code]` as written cannot index it, and the corrected lookup gives 0.0 |
| Ivfpq.EncodedCodesInTable | src/ivfpq/primitive_types.rs:73-86 | Every code `encode` produces indexes the table |
| Ivfpq.CodesAt | src/ivfpq/ivfpq.rs:249 | Definition: the codes of the bucket's entries, in the order of the given keys |
| Ivfpq.CandidatesAreNonNaNCodes | src/ivfpq/ivfpq.rs:250-259 | A node is a heap candidate exactly when it pairs a scanned code with its summed distance and that sum is not NaN |
| Ivfpq.SortedHeapIsNearest | src/ivfpq/ivfpq.rs:247-261 | Sorting the heap after pushing every candidate gives the nearest candidates: min(n, 10) of them, ordered by distance, and no candidate left out is nearer than one kept (which of equally distant candidates are kept is left open) |
| Ivfpq.CandidatesStep | src/ivfpq/ivfpq.rs:249-259 | Scanning one more code adds exactly its node, if any |
| Ivfpq.PushCodes | src/ivfpq/ivfpq.rs:249-260 | The scan loop with the corrected lookup `dt[code[s]][s]`: it fails exactly when some code names a row past the table (8 rows), and otherwise pushes every non-NaN candidate |
| Ivfpq.Scan | src/ivfpq/ivfpq.rs:247-261 | A bucket scan with the corrected lookup: it fails exactly on a code naming a row past the table; otherwise it answers min(n, 10) of the candidates, sorted, none farther than a candidate left out |
| Ivfpq.InvertedIndex.Contents | src/ivfpq/ivfpq.rs:93 | Definition (abstraction function): the index's contents are its buckets' maps, in bucket order |
| Ivfpq.InvertedIndex.Empty | src/ivfpq/ivfpq.rs:96-98 | `empty` has no buckets |
| Ivfpq.InvertedIndex.Push | src/ivfpq/ivfpq.rs:100-102 | `push` appends the bucket and leaves earlier buckets' contents alone |
| Ivfpq.InvertedIndex.GetCluster | src/ivfpq/ivfpq.rs:104-106 | Definition (accessor): `get_cluster` fails exactly past the last bucket, where the source panics, and otherwise returns bucket `c` |
| Ivfpq.InvertedIndex.ComputeDistanceTable | src/ivfpq/ivfpq.rs:111-139 | Fails exactly when the cluster has no bucket or there are more than 8 centroids; otherwise returns the distance table specification |
| Ivfpq.InvertedIndex.AddEmbeddingToCluster | src/ivfpq/ivfpq.rs:150-153 | Fails exactly on a missing bucket or an exhausted id counter, changing neither the buckets nor the counter. Otherwise it takes the id `next_id` returns (the old counter plus one, never issued before), stores the encoded entry under it in that bucket only, and keeps entries in the bucket they record |
| Ivfpq.SearchOne | src/ivfpq/ivfpq.rs:244-261 | With the corrected lookup: one query fails exactly when its cluster has no bucket, the bucket has more than 8 centroids, or it holds a code naming a row past the table; otherwise it answers the nearest codes by the residual's table against that bucket's centroids |
| Ivfpq.Search | src/ivfpq/ivfpq.rs:228-264 | With the corrected lookup: `search` fails exactly when some query fails; otherwise it answers one result per query, in order, each the nearest codes of that query |
| Serialization.LineTexts | src/ivfpq/serialization.rs:46-49 | One line per visited key |
| Serialization.ToJson | src/ivfpq/serialization.rs:44-51 | Definition of `to_json`: a braced text, `{}` for the empty bucket (see JsonRoundTrip) |
| Serialization.ParseLine | src/ivfpq/serialization.rs:61-64 | Definition of one line's parse; it succeeds only on a line holding `:` (see JsonLineRoundTrip) |
| Serialization.ParseLines | src/ivfpq/serialization.rs:57-65 | Definition of the insertion of every line; the map has at most one key per line (see ParseLineTexts, LaterLineWins) |
| Serialization.ParseJsonAsWritten | src/ivfpq/serialization.rs:53-67 | `from_json` as written; a text shorter than 3 characters, `{}` included, fails (see EmptyBucketDoesNotRoundTrip, NonEmptyRoundTrip) |
| Serialization.ParseJson | src/ivfpq/serialization.rs:53-67 | Corrected `from_json`: `{}` reads as the empty bucket and every other text as written (see JsonRoundTrip) |
| Serialization.ParseLinesNoneExtends | src/ivfpq/serialization.rs:59-65 | A line that fails to parse fails the whole text, whatever follows |
| Serialization.InsertLines | src/ivfpq/serialization.rs:57-66 | The insertion loop builds the map the lines specify, or fails on a bad line |
| Serialization.FromJson | src/ivfpq/serialization.rs:53-67 | `from_json` (with the empty bucket handled) agrees with the parse specification |
| Serialization.LaterLineWins | src/ivfpq/serialization.rs:64 | Of two lines with the same key, the later one's entry is kept |
| Serialization.EntryToStringIsPlain | src/ivfpq/primitive_types.rs:145 | An entry's text holds only digits, commas, spaces, brackets and `;` |
| Serialization.JsonLineHasNoNewline | src/ivfpq/serialization.rs:48 | A line's text (before its newline) contains no newline |
| Serialization.JsonLineRoundTrip | src/ivfpq/serialization.rs:48-64 | Parsing the `id: entry` text of a key and entry gives back the key and the entry |
| Serialization.EntriesOf | src/ivfpq/serialization.rs:59-65 | The map of the given keys' entries, taken from the bucket |
| Serialization.ParseLineTexts | src/ivfpq/serialization.rs:44-65 | Parsing the written lines of some keys gives back those keys' entries |
| Serialization.LineTextsHaveNoNewline | src/ivfpq/serialization.rs:48 | No written line contains a newline, so splitting on newlines separates them |
| Serialization.SplitBracedLines | src/ivfpq/serialization.rs:54-57 | Cutting `{` and the final newline and `}` from a braced run of lines and splitting on newlines gives the lines back |
| Serialization.LinesParseToBucket | src/ivfpq/serialization.rs:44-65 | The lines of every key, in ascending order, parse back to the whole bucket |
| Serialization.NonEmptyRoundTrip | src/ivfpq/serialization.rs:44-67 | `from_json(to_json(m)) == m` as written, for every non-empty bucket |
| Serialization.EmptyBucketDoesNotRoundTrip | src/ivfpq/serialization.rs:54-56 | The empty bucket writes `{}`, and `from_json` as written cannot read it back |
| Serialization.JsonRoundTrip | src/ivfpq/serialization.rs:44-67 | With the empty text handled, `from_json(to_json(m)) == m` for every bucket |
| Serialization.WriteReadWrite | src/ivfpq/serialization.rs:80-91 | The repository's serialisation test: writing what was read from a written bucket gives the same text |
| DbApi.EncodeCodebook | src/ivfpq/db_api.rs:60 | CBOR of a codebook decodes back to the codebook |
| DbApi.BucketTexts | src/ivfpq/serialization.rs:11 | An index is stored as one bucket text per bucket |
| DbApi.DecodeIvf | src/ivfpq/serialization.rs:33-37 | Decoding a stored index through the corrected `from_json`: one bucket per stored text (see EncodeIvf) |
| DbApi.DecodeIvfAsWritten | src/ivfpq/serialization.rs:33-37 | Decoding a stored index through `from_json` as written: one bucket per stored text (see IndexWithEmptyBucketDoesNotReload) |
| DbApi.ParseBucketTexts | src/ivfpq/serialization.rs:33-37 | Reading every stored bucket text back gives the buckets back |
| DbApi.EncodeIvf | src/ivfpq/db_api.rs:98 | CBOR of an index decodes back to the same buckets |
| DbApi.ParseBucketsWithAll | src/ivfpq/serialization.rs:33-37 | When each stored text reads back as its own bucket, reading the whole index succeeds with exactly those buckets, in order |
| DbApi.ParseBucketsWithFails | src/ivfpq/serialization.rs:36 | One bucket that fails to read fails the whole index |
| DbApi.IndexWithEmptyBucketDoesNotReload | src/ivfpq/db_api.rs:109-114 | An index with an empty bucket, once stored, cannot be loaded by the as-written bucket parser |
| DbApi.KvStore.constructor | src/ivfpq/db_api.rs:34-35 | An opened store with given contents and failure script |
| DbApi.KvStore.Get | src/ivfpq/db_api.rs:50 | `get` returns the stored value or none, or the scripted error, and changes nothing |
| DbApi.KvStore.Put | src/ivfpq/db_api.rs:65 | `put` sets the key, or fails leaving the contents unchanged |
| DbApi.KvStore.Delete | src/ivfpq/db_api.rs:58 | `delete` removes the key, or fails leaving the contents unchanged |
| DbApi.LoadSpec | src/ivfpq/db_api.rs:72-83 | A load errs exactly on a failed read or an undecodable value; it gives the default when the key is absent and the decoded value otherwise |
| DbApi.PersistSpec | src/ivfpq/db_api.rs:45-69 | Definition of the persist policy; it makes one to three store calls and on success leaves the key present (see PersistPolicy) |
| DbApi.PersistPolicy | src/ivfpq/db_api.rs:45-69 | With a working store: an absent key is written, a different value replaced, an equal value left alone after one read |
| DbApi.PersistOnlyOwnKey | src/ivfpq/db_api.rs:45-69 | A persist changes no other key |
| DbApi.PersistStopsAtFirstFailure | src/ivfpq/db_api.rs:50-65 | The `?`s stop at the first failing call: a store error is returned exactly when the last call made failed, and all earlier calls succeeded |
| DbApi.InterruptedReplaceLosesKey | src/ivfpq/db_api.rs:56-61 | A replace whose put fails after the delete succeeded leaves the key absent |
| DbApi.PersistThenLoad | src/ivfpq/db_api.rs:45-83 | A persist followed by a load, with a working store, gives back the persisted value |
| DbApi.PersistIdempotent | src/ivfpq/db_api.rs:56 | Persisting the same value again reads once and writes nothing |
| DbApi.CodebookPersistThenLoad | src/ivfpq/db_api.rs:131-141 | The repository's codebook test: a persisted codebook loads back unchanged |
| DbApi.IvfPersistThenLoad | src/ivfpq/db_api.rs:143-158 | The repository's index test: a persisted index loads back with the same buckets |
| DbApi.DatabaseWrapper.Open | src/ivfpq/db_api.rs:34-40 | `open` wraps the opened store |
| DbApi.DatabaseWrapper.Persist | src/ivfpq/db_api.rs:45-69 | The get / delete / put sequence leaves the result and contents of the persist policy and consumes one scripted call per store call |
| DbApi.DatabaseWrapper.PersistCodebook | src/ivfpq/db_api.rs:45-69 | `persist_codebook` follows the persist policy under the key `codebook` |
| DbApi.DatabaseWrapper.LoadCodebook | src/ivfpq/db_api.rs:72-83 | `load_codebook` follows the load specification, with the all-zero codebook as default, and writes nothing |
| DbApi.DatabaseWrapper.PersistIvf | src/ivfpq/db_api.rs:85-107 | `persist_ivf` follows the persist policy under the key `ivf`, comparing bucket contents, with a stored index decoded by the corrected `from_json` |
| DbApi.DatabaseWrapper.LoadIvf | src/ivfpq/db_api.rs:109-120 | `load_ivf`, decoding with the corrected `from_json`, errs exactly as the load specification does; otherwise it returns a new index holding the stored buckets, or none when absent |
| DbApi.Rebuild | src/ivfpq/db_api.rs:114 | Deserialising builds a new index with a new bucket per stored bucket, in order |
| DbAccess.CountCached | src/engine/indexing/db/dbaccess.rs:87-89 | The filtered count never exceeds the number of ids |
| DbAccess.CountCachedAll | src/engine/indexing/db/dbaccess.rs:86-91 | The count equals the number of ids exactly when every id is cached |
| DbAccess.Uncached | src/engine/indexing/db/dbaccess.rs:154 | The filter never yields more ids than it was given |
| DbAccess.UncachedAppend | src/engine/indexing/db/dbaccess.rs:154 | Filtering keeps request order: a concatenation filters to the concatenation of the filtered parts |
| DbAccess.UncachedCounts | src/engine/indexing/db/dbaccess.rs:154 | An uncached id is kept as many times as requested; a cached id never |
| DbAccess.UncachedEmpty | src/engine/indexing/db/dbaccess.rs:153-159 | Nothing is left exactly when every id is cached |
| DbAccess.EmbeddingHolder.constructor | src/engine/indexing/db/dbaccess.rs:60-64 | A new embedding holder caches nothing |
| DbAccess.EmbeddingHolder.AreCached | src/engine/indexing/db/dbaccess.rs:86-91 | `are_cached` is true exactly when every requested embedding id is cached |
| DbAccess.InsertedOthersUnchanged | src/engine/indexing/db/dbaccess.rs:161-166 | An id no container carries keeps its cache entry, or its absence |
| DbAccess.InsertedLaterWins | src/engine/indexing/db/dbaccess.rs:161-166 | Under each inserted id the cache holds the last container carrying it |
| DbAccess.SegmentHolder.constructor | src/engine/indexing/db/dbaccess.rs:147-151 | A new segment holder caches nothing |
| DbAccess.SegmentHolder.NotCached | src/engine/indexing/db/dbaccess.rs:153-159 | `not_cached` is `None` exactly when every id is cached; otherwise a non-empty list holding each uncached id as often as requested |
| DbAccess.SegmentHolder.UpdateCache | src/engine/indexing/db/dbaccess.rs:161-166 | `update_cache` inserts every container under its id, in order |
| DbAccess.SegmentHolder.CachedSegments | src/engine/indexing/db/dbaccess.rs:168-175 | `cached_segments` fails exactly when a requested id is uncached; otherwise it returns each id's cached container, in request order |
| DbAccess.DbAccess.constructor | src/engine/indexing/db/dbaccess.rs:239-245 | Access starts with two new, empty caches |
| DbAccess.DbAccess.GetCached | src/engine/indexing/db/dbaccess.rs:258-273 | A dump is never answered from the cache; a load is answered, with the embedding holder, exactly when all its embeddings are cached |
| Ctx.Nearest | src/engine/indexing/db/ctx.rs:161-171 | `nearest` returns one of its arguments: the larger for cosine, the smaller otherwise |
| Ctx.NearestLaws | src/engine/indexing/db/ctx.rs:161-171 | Both selectors are commutative, idempotent and associative |
| Ctx.NearestOfIsExtreme | src/engine/indexing/db/search.rs:39 | Reducing a non-empty list with `nearest`, as `search_many` does here and `most_similar_to_respectives` does at search.rs:98, picks one of its scores: the maximum for cosine and the minimum otherwise |
| Ctx.SelectorFor | src/engine/indexing/db/ctx.rs:196-199 | Definition: Cosine selects the cosine selector, every other choice the default one |
| Ctx.Context.LoadContext | src/engine/indexing/db/ctx.rs:175-201 | A new context has one empty slot per codebook entry and the selector of the chosen distance function |
| Ctx.Context.LoadCluster | src/engine/indexing/db/ctx.rs:120-140 | A filled slot is returned unchanged. An empty slot is filled with a new holder when its database opens, and only that slot changes; a failed open or a cluster past the slots changes nothing |

## Left out

- k-means training (`k_means`, src/ivfpq/ivfpq.rs:182-217) runs linfa's clustering with a seeded RNG; it is a foreign library and is not part of this model.
- The L2 distance of linfa is a parameter `dist` of the distance-table operations; no property of it is assumed.
- `get_centroids`, `get_all`, `get_nearest_centroid` and `compute_residual` are `unimplemented!()` in the source. They are parameters: the centroids of a bucket are `ComputeDistanceTable`'s `centroids` and, per cluster, the `centroidsOf` of `SearchOne` and `Search`; the coarse quantiser is `nearest` and the residual is `residual`. A bucket's entries are visited in ascending key order, as an AVL map's in-order traversal would.
- Ivfpq.AvlWrapper.AddEmbedding: does not take the embedding, because it reaches `encode` only through the distance table, which is passed in.
- MaxHeap.PushSpec: among several nodes that tie at the maximal distance, evicts the first one in push order (`MaxIndex`). heapless's `pop` takes whatever node sits at the root of its array, which can be another of the tied nodes, so the source may keep a different code. PushSpecCases states the part every tie choice satisfies, and TopK with PushAllKeepsSmallest holds whatever the choice: the kept distances are the same, only which of the tied codes survives can differ.
- MaxHeap.BinaryHeapWrapper.Push: leaves exactly PushSpec's nodes, so it fixes the same tie choice; heapless may evict a different node of maximal distance.
- Ivfpq.PushCodes: sums `dt[code[s]][s]`, the corrected lookup, and fails only on a code of 8 or more. As written, `dt[subq][code]` panics on any code from 4 to 7 and sums other entries for codes below 4 (AsWrittenLookupFailsOnEncodedCode, ApproxDistanceAsWritten). Its heap contents, `PushAll` of the candidates, also inherit PushSpec's choice among equally distant maxima; Scan, SearchOne and Search state only `IsNearest`, which leaves that choice open.
- Ivfpq.Scan: inherits the corrected lookup from PushCodes, so it answers where the source as written panics on a stored code from 4 to 7.
- Ivfpq.SearchOne: inherits the corrected lookup through Scan; the source as written panics on any bucket holding a code of 4 or more, which `encode` produces (AsWrittenLookupFailsOnEncodedCode).
- Ivfpq.Search: inherits the corrected lookup through SearchOne.
- DbApi.DatabaseWrapper.PersistIvf: decodes the stored index with the corrected `from_json` (DecodeIvf). As written, a stored index holding an empty bucket panics in `from_json` during that decode (IndexWithEmptyBucketDoesNotReload, DecodeIvfAsWritten).
- Text is a sequence of characters. `String::remove` takes a byte index, so `remove(len() - 1)` in `from_json` (src/ivfpq/serialization.rs:55-56) and `code_from_src` (src/ivfpq/primitive_types.rs:104) panics when the last character is multi-byte. The model drops that character instead; only non-ASCII text, which the writers never produce, reaches this.
- Embedding coordinates are reals without NaN, where the source's are f64. `persist_codebook` compares codebooks with f64 `!=` (src/ivfpq/db_api.rs:56), so a codebook holding a NaN never equals itself: the source deletes and puts it again on every call, and the repository's `assert_eq!` (src/ivfpq/db_api.rs:140) would fail on it. DbApi.PersistIdempotent and DbApi.CodebookPersistThenLoad hold for every codebook of the model, which never meets NaN != NaN.
- f64 and f32 rounding: distances are exact reals (or NaN), and the heap's `NotNan<f32>` conversion is not modelled.
- `Embedding::read_from_str` is used only by the repository's tests and is not part of this model.
- CBOR encoding, and opening RocksDB and LMDB: a stored value is a `Blob` that decodes to what was encoded, and an open always succeeds (`DbApi.DatabaseWrapper.Open`) or is a boolean parameter (`Ctx.Context.LoadCluster`).
- Store I/O errors are a script of failures given with the store's contents, not real I/O.
- Ctx.Context.LoadCluster: `EmbeddingHolder::load` is merged with opening the database into one `dbOpens` outcome, and a freshly loaded holder is modelled as empty, because `load` is `todo!()` in the source.
- DbApi.DatabaseWrapper.LoadIvf: decodes with the corrected `from_json` (DecodeIvf), so a stored index holding an empty bucket loads, where the source as written panics (IndexWithEmptyBucketDoesNotReload). It returns a new index rebuilt from the stored bucket contents, rather than modelling serde's construction step by step.
- DbAccess.DbAccess.GetCached: answers a cached load with the embedding holder itself, because `update_references_to` does not exist in the source.
- The `Rc` links from an embedding container to its segment containers, and reference counting, are not modelled; containers are values.
- The `todo!()` operations of the caches and context (`add_embedding`, `del_embedding`, `dump`, `load`, `dump_embeddings`, `queue_action`) have no behaviour to model. The same holds for the action queue and threads behind `load_embeddings`.
- `next_id` mutates an unsynchronised `static mut`; the model is a single `IdCounter` object. Concurrent use is not modelled, and overflow past u32::MAX (a panic in debug builds) is an error result.

## Findings

| source | as written | input that shows it | evidently intended | confidence | as-written member | corrected member |
|---|---|---|---|---|---|---|
| src/ivfpq/ivfpq.rs:253 | `dt[subq][code]` indexes the table by segment, then by code, but `DistanceTable` has one row per centroid (8) and one column per segment (4) | a table whose row 4 is the unique minimum in every column: `encode` gives [4, 4, 4, 4], and `dt[0][4]` is out of bounds | `dt[code][subq]`, the distance of the code's centroid for that segment | not executed | Ivfpq.AsWrittenLookupFailsOnEncodedCode | Ivfpq.ApproxDistanceValue |
| src/ivfpq/serialization.rs:54-56 | `from_json` removes one character at the front and two at the back unconditionally | the empty bucket: `to_json` writes `{}`, and the third `remove` on the empty string panics | the empty text `{}` reads back as the empty bucket | not executed | Serialization.EmptyBucketDoesNotRoundTrip | Serialization.JsonRoundTrip |
