/** Recognising the first face in an image against the persisted index: find
    the nearest stored embedding and decide between "no face", "no index",
    "unknown" and the name of the enrolled person. */
module Recognition {
  import opened Options
  import opened Vectors
  import opened FlatIndexL2
  import opened IndexStore

  /** Largest nearest-neighbour distance still accepted as a match; a larger
      one is reported as unknown. */
  const SimThreshold: real := 0.5

  /** The person directory: person id to name. */
  type Directory = map<int, string>

  /** Exceptions that escape a recognition: the index's own check on the
      query (wrong dimension, or fewer than one neighbour asked for), and a
      neighbour slot the label array has no entry for. */
  datatype Fault = SearchAssertion | LabelIndexError

  datatype Outcome =
    | NoFace
    | NoIndex
    | Unknown(distance: real)
    | Identified(name: string, distance: real)
    | Raised(fault: Fault)

  /** The (name, distance) pair the caller receives; `None` when an exception
      escaped. */
  function Reply(o: Outcome): (r: Option<(string, Option<real>)>)
    ensures r.None? <==> o.Raised?
    ensures r.Some? && r.value.1.None? <==> o.NoFace? || o.NoIndex?
    ensures o.Identified? ==> r == Some((o.name, Some(o.distance)))
    ensures o.Unknown? ==> r == Some(("Unknown", Some(o.distance)))
    ensures o.NoFace? ==> r == Some(("NoFace", None))
    ensures o.NoIndex? ==> r == Some(("NoIndex", None))
  {
    match o
    case NoFace => Some(("NoFace", None))
    case NoIndex => Some(("NoIndex", None))
    case Unknown(d) => Some(("Unknown", Some(d)))
    case Identified(n, d) => Some((n, Some(d)))
    case Raised(_) => None
  }

  /** A person whose directory name is literally "Unknown" gets the same reply
      as an unknown face at the same distance; the no-distance replies cannot
      be confused with any match. */
  lemma UnknownNameIsAmbiguous(d: real, name: string)
    ensures Reply(Unknown(d)) == Reply(Identified("Unknown", d))
    ensures Reply(NoFace) != Reply(Identified(name, d))
    ensures Reply(NoIndex) != Reply(Identified(name, d))
  {
  }

  /** Python's `xs[i]`: a negative index counts from the end; anything outside
      the array raises. */
  function PyIndex(xs: seq<int>, i: int): (r: Option<int>)
    ensures r.Some? <==> -|xs| <= i < |xs|
    ensures r.Some? && 0 <= i ==> r.value == xs[i]
    ensures r.Some? && i < 0 ==> r.value == xs[|xs| + i]
  {
    if 0 <= i < |xs| then Some(xs[i])
    else if -|xs| <= i < 0 then Some(xs[|xs| + i])
    else None
  }

  /** Recognise the first face found in `img`, searching for `k` neighbours
      and reading only the first. */
  function Recognize(s: Store, extract: Extractor, img: ImagePath, dir: Directory, k: int): (r: Outcome)
    ensures r == NoFace <==> |extract(img)| == 0
    ensures r == NoIndex <==> |extract(img)| > 0 && (s.index.None? || s.labels.None?)
    // a match is reported only within the threshold, with the directory's name
    // for the label of a nearest stored vector
    ensures r.Identified? ==>
              && r.distance <= SimThreshold
              && exists i :: && 0 <= i < |s.index.value.vectors|
                             && IsNearest(s.index.value.vectors, extract(img)[0].embedding, i)
                             && r.distance == SqDist(extract(img)[0].embedding, s.index.value.vectors[i])
                             && i < |s.labels.value|
                             && s.labels.value[i] in dir
                             && dir[s.labels.value[i]] == r.name
    // unknown within the threshold only for a label the directory lacks
    ensures r.Unknown? && r.distance <= SimThreshold && |s.index.value.vectors| > 0 ==>
              exists i :: && 0 <= i < |s.index.value.vectors|
                          && IsNearest(s.index.value.vectors, extract(img)[0].embedding, i)
                          && i < |s.labels.value|
                          && s.labels.value[i] !in dir
  {
    var faces := extract(img);
    if |faces| == 0 then NoFace
    else
      match LoadIndex(s)
      case None => NoIndex
      case Some(loaded) =>
        match Search(loaded.index, faces[0].embedding, k)
        case Rejected => Raised(SearchAssertion)
        case TopHit(slot, distance) =>
          match PyIndex(loaded.labels, slot)
          case None => Raised(LabelIndexError)
          case Some(personId) =>
            if distance > SimThreshold then Unknown(distance)
            else if personId in dir then Identified(dir[personId], distance)
            else Unknown(distance)
  }

  /** Without a face the outcome is `NoFace` whatever the store, directory or
      `k`: the index is never consulted. */
  lemma NoFaceIgnoresIndex(s1: Store, s2: Store, extract: Extractor, img: ImagePath,
                           dir1: Directory, dir2: Directory, k1: int, k2: int)
    requires |extract(img)| == 0
    ensures Recognize(s1, extract, img, dir1, k1) == NoFace
    ensures Recognize(s1, extract, img, dir1, k1) == Recognize(s2, extract, img, dir2, k2)
  {
  }

  /** Only the first neighbour is read, so any `k` of at least one gives the
      same outcome. */
  lemma RecognizeIgnoresK(s: Store, extract: Extractor, img: ImagePath, dir: Directory, k1: int, k2: int)
    requires k1 >= 1 && k2 >= 1
    ensures Recognize(s, extract, img, dir, k1) == Recognize(s, extract, img, dir, k2)
  {
  }

  /** The decision on a store that loads and has vectors, for a well-formed
      query, whether or not its two artifacts are paired, as long as the
      nearest slot has a label: the reported distance is the smallest distance
      to any stored vector; a distance above the threshold is unknown; at or
      below it the nearest slot's label is looked up, giving its name, or
      unknown when the directory has no entry. */
  lemma ThresholdDecision(s: Store, extract: Extractor, img: ImagePath, dir: Directory, k: int, i: int)
    requires |extract(img)| > 0 && k >= 1
    requires s.index.Some? && s.labels.Some?
    requires |extract(img)[0].embedding| == s.index.value.dim
    requires IsNearest(s.index.value.vectors, extract(img)[0].embedding, i)
    requires i < |s.labels.value|
    ensures var r := Recognize(s, extract, img, dir, k);
            var d := SqDist(extract(img)[0].embedding, s.index.value.vectors[i]);
            var owner := s.labels.value[i];
            && (forall j :: 0 <= j < |s.index.value.vectors| ==>
                  d <= SqDist(extract(img)[0].embedding, s.index.value.vectors[j]))
            && (d > SimThreshold ==> r == Unknown(d))
            && (d <= SimThreshold && owner in dir ==> r == Identified(dir[owner], d))
            && (d <= SimThreshold && owner !in dir ==> r == Unknown(d))
  {
  }

  /** On a consistent store that loads, recognition raises exactly when the
      query's dimension is wrong, `k` is below one, or both artifacts are
      empty (the unfilled slot then indexes an empty label array). */
  lemma RaisesOnlyOnBadQuery(s: Store, extract: Extractor, img: ImagePath, dir: Directory, k: int)
    requires |extract(img)| > 0
    requires Consistent(s) && s.index.Some?
    ensures Recognize(s, extract, img, dir, k).Raised? <==>
              || |extract(img)[0].embedding| != s.index.value.dim
              || k < 1
              || |s.index.value.vectors| == 0
  {
  }

  /** An index with no vectors reports the unfilled slot: with labels present
      the last one is read and the outcome is unknown at the largest float
      distance; with no labels the lookup raises. */
  lemma EmptyIndexOutcome(s: Store, extract: Extractor, img: ImagePath, dir: Directory, k: int)
    requires |extract(img)| > 0 && k >= 1
    requires s.index.Some? && s.labels.Some? && |s.index.value.vectors| == 0
    requires |extract(img)[0].embedding| == s.index.value.dim
    ensures |s.labels.value| > 0 ==> Recognize(s, extract, img, dir, k) == Unknown(FloatMax)
    ensures |s.labels.value| == 0 ==> Recognize(s, extract, img, dir, k) == Raised(LabelIndexError)
  {
  }

  /** A distance is reported exactly when a search ran and a label was read. */
  lemma DistanceOnlyAfterSearch(s: Store, extract: Extractor, img: ImagePath, dir: Directory, k: int)
    ensures var r := Recognize(s, extract, img, dir, k);
            Reply(r).Some? && Reply(r).value.1.None? <==> |extract(img)| == 0 || LoadIndex(s).None?
  {
  }

  /** Enrol an image, then recognise it: the nearest distance is zero, so the
      threshold never rejects it; when no earlier stored vector is at distance
      zero from the embedding and the person is in the directory, the outcome
      is that person's name. */
  lemma SelfMatch(s: Store, extract: Extractor, img: ImagePath, personId: int, dir: Directory, k: int)
    requires Consistent(s) && k >= 1
    requires AddEmbedding(s, extract, img, personId).status == Appended
    requires forall j :: 0 <= j < |VectorsOf(s)| ==> SqDist(extract(img)[0].embedding, VectorsOf(s)[j]) > 0.0
    requires personId in dir
    ensures Recognize(AddEmbedding(s, extract, img, personId).store, extract, img, dir, k)
              == Identified(dir[personId], 0.0)
  {
    var after := AddEmbedding(s, extract, img, personId).store;
    var e := extract(img)[0].embedding;
    var n := |VectorsOf(s)|;
    AddPreservesConsistency(s, extract, img, personId);
    SqDistSelf(e);
    var vs := after.index.value.vectors;
    assert vs[n] == e;
    forall j | 0 <= j < |vs|
      ensures SqDist(e, vs[n]) <= SqDist(e, vs[j])
      ensures j < n ==> SqDist(e, vs[n]) < SqDist(e, vs[j])
    {
      if j < n {
        assert vs[j] == VectorsOf(s)[j];
      }
    }
    assert IsNearest(vs, e, n);
    ThresholdDecision(after, extract, img, dir, k, n);
  }

  /** Before any enrolment neither file exists, so a face is answered with
      `NoIndex`. */
  lemma RecognizeBeforeEnrolment(extract: Extractor, img: ImagePath, dir: Directory, k: int)
    requires |extract(img)| > 0
    ensures Recognize(Fresh, extract, img, dir, k) == NoIndex
  {
  }

  /** The hazard of a labels file left without its index: enrolment creates a
      new one-vector index but keeps the old labels, so recognising the very
      image just enrolled names the person of the stale first label, at
      distance zero, rather than the person just enrolled. */
  lemma StaleLabelsMisattribute(s: Store, extract: Extractor, img: ImagePath, personId: int,
                                dir: Directory, k: int)
    requires s.index.None? && s.labels.Some? && |s.labels.value| > 0
    requires |extract(img)| > 0 && k >= 1
    requires s.labels.value[0] in dir
    ensures Recognize(AddEmbedding(s, extract, img, personId).store, extract, img, dir, k)
              == Identified(dir[s.labels.value[0]], 0.0)
  {
    var after := AddEmbedding(s, extract, img, personId).store;
    var e := extract(img)[0].embedding;
    SqDistSelf(e);
    assert after.index.value.vectors == [e];
    assert after.labels.value[0] == s.labels.value[0];
    assert IsNearest(after.index.value.vectors, e, 0);
    ThresholdDecision(after, extract, img, dir, k, 0);
  }
}
