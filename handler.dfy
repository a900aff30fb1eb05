/** The decision of the `/classify` handler: the checks made before matching,
    the matching loop, and the reply chosen from the list it builds. */
module Handler {
  import opened Matching
  import opened Response

  /** The known-faces directory: absent, or present with its listing. */
  datatype Directory = Missing | Listing(files: seq<FileName>)

  /** The five ways a request that reaches face detection can end. */
  datatype Outcome =
    | NoFaces
    | DirMissing
    | DirEmpty
    | Matched(images: seq<FileName>)
    | NoMatch

  /** The outcome of a request whose uploaded image yields the descriptors
      `queries`, the checks taken in the handler's order. */
  function Decide(dist: Distance, detect: Detector, queries: seq<Descriptor>, dir: Directory): (o: Outcome)
    ensures o.NoFaces? <==> queries == []
    ensures o.DirMissing? <==> queries != [] && dir.Missing?
    ensures o.DirEmpty? <==> queries != [] && dir == Listing([])
    ensures o.Matched? ==> o.images != [] && o.images == MatchedImages(dist, detect, queries, dir.files)
    ensures o.NoMatch? <==>
      queries != [] && dir.Listing? && dir.files != [] && NoPairMatches(dist, detect, queries, dir.files)
  {
    if queries == [] then NoFaces
    else if dir.Missing? then DirMissing
    else if dir.files == [] then DirEmpty
    else
      var matched := MatchedImages(dist, detect, queries, dir.files);
      MatchedImagesEmpty(dist, detect, queries, dir.files);
      if matched != [] then Matched(matched) else NoMatch
  }

  /** The reply body sent for an outcome. */
  function Render(o: Outcome): (r: Reply)
    ensures r.Error? <==> o.DirMissing? || o.DirEmpty?
    ensures o.Matched? ==> r == Result(MatchPrefix + Join(o.images))
  {
    match o
    case NoFaces => Result(NoFacesText)
    case DirMissing => Error(DirMissingText)
    case DirEmpty => Error(DirEmptyText)
    case Matched(images) => Result(MatchPrefix + Join(images))
    case NoMatch => Result(NoMatchText)
  }

  /** The body of `/classify` from face detection on: the early returns, the
      nested matching loops, then the reply built from `matchedImages`. */
  method Classify(dist: Distance, detect: Detector, queries: seq<Descriptor>, dir: Directory)
    returns (reply: Reply)
    ensures reply == Render(Decide(dist, detect, queries, dir))
  {
    if |queries| == 0 {
      return Result(NoFacesText);
    }
    if dir.Missing? {
      return Error(DirMissingText);
    }
    var knownFaceFiles := dir.files;
    if |knownFaceFiles| == 0 {
      return Error(DirEmptyText);
    }
    var matchedImages := MatchAll(dist, detect, queries, knownFaceFiles);
    if |matchedImages| > 0 {
      reply := Result(MatchPrefix + Join(matchedImages));
    } else {
      reply := Result(NoMatchText);
    }
  }

  /** An outcome the handler can produce with names free of commas. */
  predicate Readable(o: Outcome)
  {
    o.Matched? ==> o.images != [] && forall i :: 0 <= i < |o.images| ==> CommaFree(o.images[i])
  }

  /** Reads back the outcome from a reply body the handler sends. */
  function Parse(r: Reply): Outcome
  {
    match r
    case Error(t) => if t == DirMissingText then DirMissing else DirEmpty
    case Result(t) =>
      if t == NoFacesText then NoFaces
      else if t == NoMatchText then NoMatch
      else if |MatchPrefix| <= |t| then Matched(Split(t[|MatchPrefix|..]))
      else NoMatch
  }

  /** Every readable outcome is recovered from its reply: the two directory
      failures are errors that differ from each other and from "no match",
      and a match reply names exactly its list, in order and with repeats. */
  lemma ParseRender(o: Outcome)
    requires Readable(o)
    ensures Parse(Render(o)) == o
  {
    if o.Matched? {
      var t := Render(o).result;
      assert t[0] == 'M';
      assert t[|MatchPrefix|..] == Join(o.images);
      SplitJoin(o.images);
    }
  }

  /** Hence distinct readable outcomes never share a reply. */
  lemma RepliesDistinct(o1: Outcome, o2: Outcome)
    requires Readable(o1) && Readable(o2)
    requires Render(o1) == Render(o2)
    ensures o1 == o2
  {
    ParseRender(o1);
    ParseRender(o2);
  }

  /** Names of a listing hold no comma. */
  predicate CommaFreeListing(files: seq<FileName>)
  {
    forall j :: 0 <= j < |files| ==> CommaFree(files[j])
  }

  /** Over a listing without commas in its names, the handler's replies
      tell its outcomes apart. */
  lemma DecideReadable(dist: Distance, detect: Detector, queries: seq<Descriptor>, dir: Directory)
    requires dir.Listing? ==> CommaFreeListing(dir.files)
    ensures Readable(Decide(dist, detect, queries, dir))
  {
    var o := Decide(dist, detect, queries, dir);
    if o.Matched? {
      forall i | 0 <= i < |o.images| ensures CommaFree(o.images[i]) {
        MatchedImagesMember(dist, detect, queries, dir.files, o.images[i]);
      }
    }
  }

  /** Zero query detections end the request first, whatever the directory. */
  lemma NoFacesWhateverDirectory(dist: Distance, detect: Detector, dir1: Directory, dir2: Directory)
    ensures Decide(dist, detect, [], dir1) == Decide(dist, detect, [], dir2) == NoFaces
    ensures Render(Decide(dist, detect, [], dir1)) == Result(NoFacesText)
  {
  }

  /** A listed directory whose files all yield no face is a "no match" reply,
      not an error: emptiness counts files, not faces. */
  lemma FacelessGalleryIsNoMatch(dist: Distance, detect: Detector, queries: seq<Descriptor>, files: seq<FileName>)
    requires queries != [] && files != []
    requires forall j :: 0 <= j < |files| ==> detect(files[j]) == []
    ensures Decide(dist, detect, queries, Listing(files)) == NoMatch
    ensures Render(Decide(dist, detect, queries, Listing(files))) == Result(NoMatchText)
  {
  }

  /** Two query faces of which only the first is within the threshold of the
      one face of the only known file: the reply names that file once. */
  lemma PartialMatchStillMatches(dist: Distance, detect: Detector, q1: Descriptor, q2: Descriptor, a: Descriptor)
    requires detect("alice.jpg") == [a]
    requires dist(q1, a) < Threshold && dist(q2, a) >= Threshold
    ensures Decide(dist, detect, [q1, q2], Listing(["alice.jpg"])) == Matched(["alice.jpg"])
  {
    var files := ["alice.jpg"];
    assert FaceMatches(dist, detect, q1, files) == ["alice.jpg"] by {
      assert files[..0] == [];
      assert FileMatches(dist, q1, [a]) by { assert [a][0] == a; }
    }
    assert FaceMatches(dist, detect, q2, files) == [] by {
      assert files[..0] == [];
    }
    assert [q1, q2][..1] == [q1];
    assert [q1][..0] == [];
    assert MatchedImages(dist, detect, [q1], files) == FaceMatches(dist, detect, q1, files);
    assert MatchedImages(dist, detect, [q1, q2], files)
      == MatchedImages(dist, detect, [q1], files) + FaceMatches(dist, detect, q2, files);
  }

  /** Two query faces both within the threshold of the same known file: that
      name is listed twice, since the handler does not deduplicate. */
  lemma DuplicatesKept(dist: Distance, detect: Detector, q1: Descriptor, q2: Descriptor, a: Descriptor)
    requires detect("alice.jpg") == [a]
    requires dist(q1, a) < Threshold && dist(q2, a) < Threshold
    ensures Decide(dist, detect, [q1, q2], Listing(["alice.jpg"])) == Matched(["alice.jpg", "alice.jpg"])
  {
    var files := ["alice.jpg"];
    assert files[..0] == [];
    assert FileMatches(dist, q1, [a]) by { assert [a][0] == a; }
    assert FileMatches(dist, q2, [a]) by { assert [a][0] == a; }
    assert FaceMatches(dist, detect, q1, files) == ["alice.jpg"];
    assert FaceMatches(dist, detect, q2, files) == ["alice.jpg"];
    assert [q1, q2][..1] == [q1];
    assert [q1][..0] == [];
    assert MatchedImages(dist, detect, [q1], files) == FaceMatches(dist, detect, q1, files);
    assert MatchedImages(dist, detect, [q1, q2], files)
      == MatchedImages(dist, detect, [q1], files) + FaceMatches(dist, detect, q2, files);
  }
}
