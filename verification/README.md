# Face index and recognition decision, in Dafny

This project models the stateful core of a face-recognition service: the
persisted face index that enrolment appends to, and the decision that
recognition takes from a nearest-neighbour search over it.

- **Index store** (`index_store.dfy`, module `IndexStore`). Two artifacts are
  kept on disk and opened independently: a flat L2 index of embedding vectors
  and an array of integer person labels, slot for slot. Each may be missing
  (`Option`). Enrolling an image asks the face extractor for faces. With none,
  false is returned and nothing changes. Otherwise the first face's embedding
  is appended to the stored index. If the index file is missing, a new index is
  created whose dimension is the embedding's length. The person id is appended
  to the stored labels, or to an empty array when the labels file is missing.
  Loading returns both artifacts or neither.
- **Flat index** (`flat_index.dfy`, module `FlatIndexL2`). An exact
  brute-force index under squared Euclidean distance: a dimension fixed at
  creation, vectors in slot order, an `Add` that refuses a vector of another
  dimension, and a k-nearest `Search` of which only the first neighbour is
  modelled. The nearest slot is specified declaratively (`IsNearest`: a minimiser
  of the distance with no earlier slot as near). It is computed by a recursive
  function (`Nearest`) and by the scanning loop an exhaustive index runs
  (`ScanNearest`), and both are proved to meet that specification.
- **Recognizer** (`recognition.dfy`, module `Recognition`). A total decision
  over the outcomes `NoFace`, `NoIndex`, `Unknown(distance)` and
  `Identified(name, distance)`, plus `Raised` for the exceptions that can escape.
  A distance strictly above the threshold 0.5 (`SimThreshold`, from
  `config.py:19`) is unknown. A distance at or below it is resolved through the
  person directory, and a label with no entry there is unknown too.
- `vectors.dfy` (module `Vectors`) holds the squared distance. `options.dfy`
  (module `Options`) holds `Option`.

Abstract parameters: the face extractor is a function from an image path to a
sequence of face records (`Extractor`). The person directory is a
`map<int, string>`. The persisted files are the `Store` value that enrolment
takes and returns. Loading and recognition take it as an input only, so they
cannot change it.

Behaviour of the index library that the source relies on is modelled as
follows. Adding or searching with a vector of the wrong dimension fails an
assertion in the library's Python binding, and so does a search for fewer than
one neighbour. During enrolment that assertion fires before either file is
written, so the store is unchanged. A search of an index with no vectors
reports slot -1 at the largest single-precision distance. The label lookup uses
Python indexing, so on a non-empty label array slot -1 reads the last label. Ties
between equally near vectors go to the lowest slot. That is the behaviour of a
scan that replaces its best candidate only on a strictly smaller distance.

Points the proofs make explicit:
- The length invariant survives an enrolment exactly when the two artifacts had
  equal lengths beforehand, with a missing file counted as empty
  (`AppendKeepsPairingIff`). An index file with vectors but no labels file
  leaves the store unpaired for good (`IndexWithoutLabelsBreaksPairing`).
- The directory may contain a person literally named `Unknown`. A match on
  that person gets the same reply as an unknown face at the same distance
  (`UnknownNameIsAmbiguous`). The `NoFace` and `NoIndex` replies carry no
  distance, so they cannot be confused with a match.
- A labels file left without its index file gets mislabelled. Enrolment then
  creates a one-vector index but keeps the old labels. Recognising the image
  just enrolled names the person of the stale first label, at distance zero
  (`StaleLabelsMisattribute`).
- On a consistent store that loads, recognition raises only for a
  wrong-dimension query, for `k` below one, or when both artifacts are empty
  (`RaisesOnlyOnBadQuery`).

## Model

| member | source | states |
|---|---|---|
| Vectors.SqDist | recognition.py:24-25 | the distance a flat L2 index ranks by is never negative |
| Vectors.SqDistSelf | recognition.py:24-25 | a vector is at distance zero from itself |
| FlatIndexL2.Empty | embeddings.py:26 | a newly created index has the requested dimension, no vectors, and is well formed |
| FlatIndexL2.Add | embeddings.py:35 | adding succeeds exactly when the vector has the index's dimension; the count grows by one, earlier slots are kept, the new last slot is the vector, and well-formedness is preserved |
| FlatIndexL2.Nearest | recognition.py:24-26 | the computed slot is the lowest-numbered minimiser of the distance to the query |
| FlatIndexL2.NearestUnique | recognition.py:24-26 | at most one slot is the lowest-numbered minimiser, so the top hit is determined |
| FlatIndexL2.ScanNearest | recognition.py:24 | the one-pass scan of the flat index returns the lowest-numbered minimiser and its distance, the same slot as `Nearest` |
| FlatIndexL2.Search | recognition.py:24-25 | the search is rejected exactly for a wrong-dimension query or k below one; an empty index reports slot -1 at the largest float; otherwise the top hit is the nearest slot with its distance |
| FlatIndexL2.SearchTopHitIgnoresK | recognition.py:24-26 | the first neighbour is the same for every k of at least one |
| FlatIndexL2.SearchDistanceIsMinimum | recognition.py:24-25 | the reported distance is at most every stored vector's distance and is attained by one of them |
| IndexStore.Returned | embeddings.py:16-42 | the caller gets true for an append, false for no face, and nothing when the dimension check raises |
| IndexStore.AddEmbedding | embeddings.py:9-42 | no face gives false with the store unchanged; it appends exactly when a face exists and the embedding fits the stored dimension (or no index file exists); on success both files are present, an existing index keeps its dimension, the vectors grow by the first face's embedding and the labels (empty if the file was missing) by the person id, earlier slots untouched; on any failure the store is unchanged |
| IndexStore.ReturnsTrueExactlyWhenAppended | embeddings.py:16-42 | true is returned exactly when the store grew by one vector, false exactly when no face was found, and the store is unchanged unless true |
| IndexStore.FreshIndexTakesEmbeddingDim | embeddings.py:23-26 | with no index file, enrolment creates an index of the embedding's dimension holding exactly that one vector |
| IndexStore.AppendKeepsPairingIff | embeddings.py:23-39 | after an append the vector and label counts are equal exactly when they were equal before, missing files counting as empty |
| IndexStore.AddPreservesConsistency | embeddings.py:23-39 | an enrolment, whatever its outcome, keeps a consistent store consistent (both absent, or both present, paired and well formed) |
| IndexStore.IndexWithoutLabelsBreaksPairing | embeddings.py:29-32 | an index file holding vectors with no labels file yields unequal lengths after the next append |
| IndexStore.LoadIndex | embeddings.py:45-50 | a load succeeds exactly when both files exist and then returns exactly the stored pair; otherwise nothing, never a partial pair |
| IndexStore.LoadFromConsistentIsPaired | embeddings.py:45-50 | a load from a consistent store hands out a well-formed index with one label per vector |
| IndexStore.LoadAfterAppend | embeddings.py:35-50 | after a successful enrolment the store loads, and its new last slot pairs the embedding with the person id |
| Recognition.Reply | recognition.py:15-33 | the caller's pair is ("NoFace", None) for NoFace and ("NoIndex", None) for NoIndex, the only replies without a distance; it carries the name or "Unknown" with the distance otherwise, and is absent when an exception escaped |
| Recognition.UnknownNameIsAmbiguous | recognition.py:28-33 | a match on a person named "Unknown" gives the same reply as an unknown face at that distance, while the NoFace and NoIndex replies differ from every match |
| Recognition.PyIndex | recognition.py:26 | Python indexing of the label array: defined exactly for -len to len-1, negative indices counting from the end |
| Recognition.Recognize | recognition.py:8-33 | NoFace exactly when the extractor finds nothing; NoIndex exactly when a face exists and either file is missing; a name only within the threshold, taken from the directory for the label of a nearest stored vector; Unknown within the threshold only when the directory lacks that label |
| Recognition.NoFaceIgnoresIndex | recognition.py:15-16 | without a face the outcome is NoFace whatever the store, directory and k |
| Recognition.RecognizeIgnoresK | recognition.py:24-26 | any k of at least one gives the same outcome |
| Recognition.ThresholdDecision | recognition.py:24-33 | on any store where both files exist and the nearest slot has a label (paired or not) the distance is the minimum over the stored vectors; above the threshold the outcome is Unknown, at or below it the nearest label's name, or Unknown when the directory lacks the label |
| Recognition.RaisesOnlyOnBadQuery | recognition.py:24-26 | on a consistent store that loads, an exception escapes exactly for a wrong-dimension query, k below one, or an empty index |
| Recognition.EmptyIndexOutcome | recognition.py:24-29 | an index with no vectors gives Unknown at the largest float when labels exist, and an index error when the label array is empty |
| Recognition.DistanceOnlyAfterSearch | recognition.py:15-33 | the reply carries no distance exactly when no face was found or the store did not load |
| Recognition.SelfMatch | recognition.py:24-33 | enrolling an image and recognising it again gives distance zero and the enrolled person's name, provided no earlier vector is at distance zero and the person is in the directory |
| Recognition.RecognizeBeforeEnrolment | recognition.py:20-22 | before any enrolment (neither file exists) a face is answered with NoIndex |
| Recognition.StaleLabelsMisattribute | recognition.py:24-33 | with a labels file but no index file, enrolling an image and recognising it again names the person of the stale first label at distance zero |

## Left out

- Face detection and embedding (the ML extractor): an opaque function parameter. Only the first face's embedding is used, as in the source.
- File I/O and serialisation of the index and the label array: the store is a value with optional fields. Unreadable or corrupt files are not modelled.
- Single-precision arithmetic: coordinates and distances are reals, and the cast of embeddings to 32-bit floats is not modelled. The only float constant kept is the largest finite value, reported for an unfilled neighbour slot.
- Label storage: the label array is saved as 64-bit floats. The model keeps labels as integers, which is exact for ids below 2^53.
- The relational person directory and its session: a `map<int, string>`. Database errors are not modelled.
- Neighbours beyond the first: `Search` returns only the top hit, since recognition reads nothing else.
- Crash atomicity between the two separate writes, and concurrency: a successful enrolment is one step.
- Console messages printed by enrolment.
- HTTP routes, pages, the CLI and the Go integration wrapper, database reset, dataset validation and training scripts, and the test and smoke scripts: plumbing outside this core.
- Index rebuild from a dataset, per-identity centroids, deduplication, vector normalisation and crop refinement: the code that would do them is not part of this model. The stored and query vectors are the extractor's raw output.
- Vectors.SqDist: does not state that a distance of zero forces equal vectors. `SelfMatch` instead takes "no earlier vector is at distance zero" as its hypothesis.
