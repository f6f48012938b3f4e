/** The persisted face index: two artifacts written and read separately, a flat
    L2 index of embedding vectors and a parallel array of integer person labels.
    Slot i of the index and slot i of the labels describe the same enrolled
    photo. Enrolment appends to both; loading hands out both or neither. */
module IndexStore {
  import opened Options
  import opened Vectors
  import opened FlatIndexL2

  /** What the face extractor returns for one detected face; only the
      embedding is used here. */
  datatype FaceRecord = FaceRecord(embedding: Vector)

  type ImagePath = string

  /** The face extractor: an opaque model from an image to the faces it finds,
      possibly none. */
  type Extractor = ImagePath -> seq<FaceRecord>

  /** The two artifacts on disk; `None` is a missing file. */
  datatype Store = Store(index: Option<FlatIndex>, labels: Option<seq<int>>)

  /** The store before anything was enrolled: neither file exists. */
  const Fresh: Store := Store(None, None)

  /** The vectors an enrolment starts from: the stored ones, or none when the
      index file is missing. */
  function VectorsOf(s: Store): seq<Vector> {
    if s.index.Some? then s.index.value.vectors else []
  }

  /** The labels an enrolment starts from: the stored ones, or none when the
      labels file is missing. */
  function LabelsOf(s: Store): seq<int> {
    s.labels.GetOr([])
  }

  /** The pairing invariant: both artifacts missing, or both present with one
      label per stored vector and every vector of the index's dimension. */
  predicate Consistent(s: Store) {
    || (s.index.None? && s.labels.None?)
    || (&& s.index.Some? && s.labels.Some?
        && s.index.value.Valid()
        && |s.index.value.vectors| == |s.labels.value|)
  }

  /** How an enrolment ended. `Appended` and `NoFaceFound` are the two values
      the operation returns (true and false); `DimensionMismatch` is the
      exception the index raises when the new embedding's length differs from
      the stored index's dimension. */
  datatype AddStatus = Appended | NoFaceFound | DimensionMismatch

  datatype AddResult = AddResult(status: AddStatus, store: Store)

  /** The boolean the caller receives, or `None` when an exception escaped. */
  function Returned(r: AddResult): (b: Option<bool>)
    ensures b == Some(true) <==> r.status == Appended
    ensures b == Some(false) <==> r.status == NoFaceFound
  {
    match r.status
    case Appended => Some(true)
    case NoFaceFound => Some(false)
    case DimensionMismatch => None
  }

  /** Enrol the first face found in `img` under `personId`. Without a face
      nothing changes and false is returned. Otherwise the index is the stored
      one, or a new empty one whose dimension is the embedding's length when
      the index file is missing; the labels are the stored ones, or none when
      the labels file is missing. The embedding is appended to the index and
      the person id to the labels, and both are written back. */
  function AddEmbedding(s: Store, extract: Extractor, img: ImagePath, personId: int): (r: AddResult)
    ensures |extract(img)| == 0 ==> r.status == NoFaceFound
    ensures r.status == Appended <==>
              && |extract(img)| > 0
              && (s.index.None? || s.index.value.dim == |extract(img)[0].embedding|)
    ensures r.status != Appended ==> r.store == s
    ensures r.status == Appended ==> r.store.index.Some? && r.store.labels.Some?
    // an existing index keeps its dimension
    ensures r.status == Appended && s.index.Some? ==> r.store.index.value.dim == s.index.value.dim
    // the vectors grow by the first face's embedding, earlier slots untouched
    ensures r.status == Appended ==>
              && |VectorsOf(r.store)| == |VectorsOf(s)| + 1
              && VectorsOf(r.store)[..|VectorsOf(s)|] == VectorsOf(s)
              && VectorsOf(r.store)[|VectorsOf(s)|] == extract(img)[0].embedding
    // the labels (none, if the file was missing) grow by the person id
    ensures r.status == Appended ==>
              && |LabelsOf(r.store)| == |LabelsOf(s)| + 1
              && LabelsOf(r.store)[..|LabelsOf(s)|] == LabelsOf(s)
              && LabelsOf(r.store)[|LabelsOf(s)|] == personId
  {
    var faces := extract(img);
    if |faces| == 0 then AddResult(NoFaceFound, s)
    else
      var e := faces[0].embedding;
      var ix := if s.index.Some? then s.index.value else Empty(|e|);
      match Add(ix, e)
      case None => AddResult(DimensionMismatch, s)
      case Some(ix') => AddResult(Appended, Store(Some(ix'), Some(LabelsOf(s) + [personId])))
  }

  /** The caller is told true exactly when the store grew by one vector, false
      exactly when no face was found, and in every case but true the store is
      left as it was. */
  lemma ReturnsTrueExactlyWhenAppended(s: Store, extract: Extractor, img: ImagePath, personId: int)
    ensures var r := AddEmbedding(s, extract, img, personId);
            && (Returned(r) == Some(true) <==> |VectorsOf(r.store)| == |VectorsOf(s)| + 1)
            && (Returned(r) == Some(false) <==> |extract(img)| == 0)
            && (Returned(r) != Some(true) ==> r.store == s)
  {
  }

  /** Enrolling into a store without an index file creates an index whose
      dimension is the embedding's length and which then holds that one
      vector. */
  lemma FreshIndexTakesEmbeddingDim(s: Store, extract: Extractor, img: ImagePath, personId: int)
    requires s.index.None? && |extract(img)| > 0
    ensures var r := AddEmbedding(s, extract, img, personId);
            && r.status == Appended
            && r.store.index.value.dim == |extract(img)[0].embedding|
            && r.store.index.value.vectors == [extract(img)[0].embedding]
  {
  }

  /** After a successful enrolment the two artifacts have equal lengths exactly
      when they had before, counting a missing file as empty. A store with an
      index file but no labels file (or the reverse) therefore stays unpaired
      unless the file that is present was empty. */
  lemma AppendKeepsPairingIff(s: Store, extract: Extractor, img: ImagePath, personId: int)
    requires AddEmbedding(s, extract, img, personId).status == Appended
    ensures var after := AddEmbedding(s, extract, img, personId).store;
            |VectorsOf(after)| == |LabelsOf(after)| <==> |VectorsOf(s)| == |LabelsOf(s)|
  {
  }

  /** Enrolment preserves the pairing invariant, whatever its outcome. */
  lemma AddPreservesConsistency(s: Store, extract: Extractor, img: ImagePath, personId: int)
    requires Consistent(s)
    ensures Consistent(AddEmbedding(s, extract, img, personId).store)
  {
  }

  /** The hazard of a half-present store: an index file holding vectors with
      no labels file breaks the pairing on the next enrolment, since the labels
      restart from empty. */
  lemma IndexWithoutLabelsBreaksPairing(s: Store, extract: Extractor, img: ImagePath, personId: int)
    requires s.index.Some? && |s.index.value.vectors| > 0 && s.labels.None?
    requires AddEmbedding(s, extract, img, personId).status == Appended
    ensures var after := AddEmbedding(s, extract, img, personId).store;
            |VectorsOf(after)| != |LabelsOf(after)|
  {
  }

  /** The pair a load returns. */
  datatype Loaded = Loaded(index: FlatIndex, labels: seq<int>)

  /** Load both artifacts, or nothing when either file is missing. The store
      is an input only: loading never changes it. */
  function LoadIndex(s: Store): (r: Option<Loaded>)
    ensures r.Some? <==> s.index.Some? && s.labels.Some?
    ensures r.Some? ==> Store(Some(r.value.index), Some(r.value.labels)) == s
  {
    if s.index.Some? && s.labels.Some? then Some(Loaded(s.index.value, s.labels.value)) else None
  }

  /** A load from a consistent store hands out one label per vector. */
  lemma LoadFromConsistentIsPaired(s: Store)
    requires Consistent(s) && LoadIndex(s).Some?
    ensures LoadIndex(s).value.index.Valid()
    ensures LoadIndex(s).value.index.Count() == |LoadIndex(s).value.labels|
  {
  }

  /** Enrol then load: after a successful enrolment the store always loads,
      and its last slot pairs the new embedding with the new person id. */
  lemma LoadAfterAppend(s: Store, extract: Extractor, img: ImagePath, personId: int)
    requires AddEmbedding(s, extract, img, personId).status == Appended
    ensures var l := LoadIndex(AddEmbedding(s, extract, img, personId).store);
            && l.Some?
            && l.value.index.Count() == |VectorsOf(s)| + 1
            && l.value.index.vectors[|VectorsOf(s)|] == extract(img)[0].embedding
            && |l.value.labels| == |LabelsOf(s)| + 1
            && l.value.labels[|LabelsOf(s)|] == personId
  {
  }
}
