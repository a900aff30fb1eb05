/** The face-matching loop of the `/classify` handler.

    Face detection and descriptor inference are foreign neural-network calls;
    here they are a deterministic function `detect` from a known-face file name
    to the descriptors found in that file. The library's Euclidean distance over
    float descriptors is an uninterpreted function `dist`. Both are parameters,
    so every statement below holds for every detector and every distance.
 */
module Matching {

  /** One face descriptor, as produced by the recognition network. */
  type Descriptor = seq<real>

  /** A name in the known-faces directory listing. */
  type FileName = string

  /** The distance oracle and the detector of known-face files. */
  type Distance = (Descriptor, Descriptor) -> real
  type Detector = FileName -> seq<Descriptor>

  /** Distances strictly below this value count as the same person. */
  const Threshold: real := 0.6

  /** Some descriptor found in a known file lies strictly closer than the
      threshold to the query descriptor. A distance of exactly 0.6 is no hit. */
  predicate FileMatches(dist: Distance, query: Descriptor, known: seq<Descriptor>)
  {
    exists j :: 0 <= j < |known| && dist(query, known[j]) < Threshold
  }

  /** The names one query face contributes: the listing, in its own order,
      keeping each file in which some descriptor is a hit. */
  function FaceMatches(dist: Distance, detect: Detector, query: Descriptor, files: seq<FileName>): seq<FileName>
  {
    if files == [] then []
    else
      var last := files[|files| - 1];
      FaceMatches(dist, detect, query, files[..|files| - 1])
        + (if FileMatches(dist, query, detect(last)) then [last] else [])
  }

  /** The whole `matchedImages` list: the contributions of the query faces,
      one after another in detection order, without deduplication. */
  function MatchedImages(dist: Distance, detect: Detector, queries: seq<Descriptor>, files: seq<FileName>): seq<FileName>
  {
    if queries == [] then []
    else
      MatchedImages(dist, detect, queries[..|queries| - 1], files)
        + FaceMatches(dist, detect, queries[|queries| - 1], files)
  }

  /** A directory listing never names the same file twice. */
  predicate Distinct(files: seq<FileName>)
  {
    forall a, b :: 0 <= a < b < |files| ==> files[a] != files[b]
  }

  /** How many of the query faces hit some descriptor of a known file. */
  function CountMatching(dist: Distance, queries: seq<Descriptor>, known: seq<Descriptor>): nat
  {
    if queries == [] then 0
    else
      CountMatching(dist, queries[..|queries| - 1], known)
        + (if FileMatches(dist, queries[|queries| - 1], known) then 1 else 0)
  }

  /** The nested loops of the handler: for each query face in order, for each
      file in listing order, scan that file's descriptors and, on the first hit,
      append the file name and stop scanning that file. */
  method MatchAll(dist: Distance, detect: Detector, queries: seq<Descriptor>, files: seq<FileName>)
    returns (matchedImages: seq<FileName>)
    ensures matchedImages == MatchedImages(dist, detect, queries, files)
  {
    matchedImages := [];
    for i := 0 to |queries|
      invariant matchedImages == MatchedImages(dist, detect, queries[..i], files)
    {
      var detection := queries[i];
      ghost var before := matchedImages;
      for j := 0 to |files|
        invariant matchedImages == before + FaceMatches(dist, detect, detection, files[..j])
      {
        var file := files[j];
        var knownFaceDetection := detect(file);
        ghost var scanned := matchedImages;
        if |knownFaceDetection| > 0 {
          for k := 0 to |knownFaceDetection|
            invariant matchedImages == scanned
            invariant forall m :: 0 <= m < k ==> dist(detection, knownFaceDetection[m]) >= Threshold
          {
            var distance := dist(detection, knownFaceDetection[k]);
            if distance < Threshold {
              matchedImages := matchedImages + [file];
              break;
            }
          }
        }
        assert files[..j + 1][..j] == files[..j];
      }
      assert files[..|files|] == files;
      assert queries[..i + 1][..i] == queries[..i];
    }
    assert queries[..|queries|] == queries;
  }

  /** One query face contributes at most as many entries as there are
      listed files. */
  lemma {:induction false} FaceMatchesBound(dist: Distance, detect: Detector, query: Descriptor, files: seq<FileName>)
    ensures |FaceMatches(dist, detect, query, files)| <= |files|
    decreases |files|
  {
    if files != [] {
      FaceMatchesBound(dist, detect, query, files[..|files| - 1]);
    }
  }

  /** Hence the list has at most |detections| * |knownFaceFiles| entries. */
  lemma {:induction false} MatchedImagesBound(dist: Distance, detect: Detector, queries: seq<Descriptor>, files: seq<FileName>)
    ensures |MatchedImages(dist, detect, queries, files)| <= |queries| * |files|
    decreases |queries|
  {
    if queries != [] {
      var n, f := |queries|, |files|;
      MatchedImagesBound(dist, detect, queries[..n - 1], files);
      FaceMatchesBound(dist, detect, queries[n - 1], files);
      assert (n - 1) * f + f == n * f by { MulSucc(n - 1, f); }
    }
  }

  lemma MulSucc(a: nat, b: nat)
    ensures a * b + b == (a + 1) * b
  {
  }

  /** A file is in one face's contribution exactly when it is listed and one of
      its descriptors is a hit for that face. */
  lemma {:induction false} FaceMatchesMember(dist: Distance, detect: Detector, query: Descriptor, files: seq<FileName>, f: FileName)
    ensures f in FaceMatches(dist, detect, query, files) <==> f in files && FileMatches(dist, query, detect(f))
    decreases |files|
  {
    if files != [] {
      var init := files[..|files| - 1];
      FaceMatchesMember(dist, detect, query, init, f);
      assert files == init + [files[|files| - 1]];
    }
  }

  /** Some query face hits a descriptor of the known file exactly when the
      count of such faces is positive. */
  lemma {:induction false} CountMatchingPositive(dist: Distance, queries: seq<Descriptor>, known: seq<Descriptor>)
    ensures CountMatching(dist, queries, known) > 0
      <==> exists i :: 0 <= i < |queries| && FileMatches(dist, queries[i], known)
    decreases |queries|
  {
    if queries != [] {
      var n := |queries|;
      var init := queries[..n - 1];
      CountMatchingPositive(dist, init, known);
      if CountMatching(dist, init, known) > 0 {
        var i :| 0 <= i < n - 1 && FileMatches(dist, init[i], known);
        assert queries[i] == init[i];
      }
      if exists i :: 0 <= i < n && FileMatches(dist, queries[i], known) {
        var i :| 0 <= i < n && FileMatches(dist, queries[i], known);
        if i < n - 1 {
          assert init[i] == queries[i];
        }
      }
    }
  }

  /** The hits of a file split over consecutive groups of query faces, as
      `MatchedImagesAppend` splits the list itself. */
  lemma {:induction false} CountMatchingAppend(dist: Distance, queries1: seq<Descriptor>, queries2: seq<Descriptor>, known: seq<Descriptor>)
    ensures CountMatching(dist, queries1 + queries2, known)
      == CountMatching(dist, queries1, known) + CountMatching(dist, queries2, known)
    decreases |queries2|
  {
    if queries2 == [] {
      assert queries1 + queries2 == queries1;
    } else {
      var init2, last2 := queries2[..|queries2| - 1], queries2[|queries2| - 1];
      var all := queries1 + queries2;
      assert all[..|all| - 1] == queries1 + init2;
      assert all[|all| - 1] == last2;
      CountMatchingAppend(dist, queries1, init2, known);
    }
  }

  /** A file appears in `matchedImages` exactly when it is listed and some
      query face hits one of its descriptors. */
  lemma MatchedImagesMember(dist: Distance, detect: Detector, queries: seq<Descriptor>, files: seq<FileName>, f: FileName)
    ensures f in MatchedImages(dist, detect, queries, files)
      <==> f in files && exists i :: 0 <= i < |queries| && FileMatches(dist, queries[i], detect(f))
  {
    MatchedImagesMemberCount(dist, detect, queries, files, f);
    CountMatchingPositive(dist, queries, detect(f));
  }

  lemma {:induction false} MatchedImagesMemberCount(dist: Distance, detect: Detector, queries: seq<Descriptor>, files: seq<FileName>, f: FileName)
    ensures f in MatchedImages(dist, detect, queries, files)
      <==> f in files && CountMatching(dist, queries, detect(f)) > 0
    decreases |queries|
  {
    if queries != [] {
      var n := |queries|;
      MatchedImagesMemberCount(dist, detect, queries[..n - 1], files, f);
      FaceMatchesMember(dist, detect, queries[n - 1], files, f);
    }
  }

  /** A known file in which no face is detected never appears. */
  lemma NoFaceFileNeverMatched(dist: Distance, detect: Detector, queries: seq<Descriptor>, files: seq<FileName>, f: FileName)
    requires detect(f) == []
    ensures f !in MatchedImages(dist, detect, queries, files)
  {
    MatchedImagesMember(dist, detect, queries, files, f);
  }

  /** No query face hits any descriptor of any listed file. */
  predicate NoPairMatches(dist: Distance, detect: Detector, queries: seq<Descriptor>, files: seq<FileName>)
  {
    forall i, j :: 0 <= i < |queries| && 0 <= j < |files| ==> !FileMatches(dist, queries[i], detect(files[j]))
  }

  /** `matchedImages` stays empty exactly when no (query face, file) pair has
      a descriptor strictly within the threshold. */
  lemma MatchedImagesEmpty(dist: Distance, detect: Detector, queries: seq<Descriptor>, files: seq<FileName>)
    ensures MatchedImages(dist, detect, queries, files) == [] <==> NoPairMatches(dist, detect, queries, files)
  {
    var m := MatchedImages(dist, detect, queries, files);
    if m != [] {
      MatchedImagesMember(dist, detect, queries, files, m[0]);
      var j :| 0 <= j < |files| && files[j] == m[0];
      var i :| 0 <= i < |queries| && FileMatches(dist, queries[i], detect(m[0]));
      assert !NoPairMatches(dist, detect, queries, files) by {
        assert FileMatches(dist, queries[i], detect(files[j]));
      }
    } else {
      forall i, j | 0 <= i < |queries| && 0 <= j < |files|
        ensures !FileMatches(dist, queries[i], detect(files[j]))
      {
        MatchedImagesMember(dist, detect, queries, files, files[j]);
      }
    }
  }

  /** With a listing that names each file once, one face contributes a file at
      most once: once if it is a hit, never otherwise. */
  lemma {:induction false} FaceMatchesCount(dist: Distance, detect: Detector, query: Descriptor, files: seq<FileName>, f: FileName)
    requires Distinct(files)
    ensures multiset(FaceMatches(dist, detect, query, files))[f]
      == if f in files && FileMatches(dist, query, detect(f)) then 1 else 0
    decreases |files|
  {
    if files != [] {
      var init, last := files[..|files| - 1], files[|files| - 1];
      assert files == init + [last];
      FaceMatchesCount(dist, detect, query, init, f);
      assert last !in init;
    }
  }

  /** No deduplication: a listed file appears in `matchedImages` once for every
      query face that hits it. */
  lemma {:induction false} MatchedImagesCount(dist: Distance, detect: Detector, queries: seq<Descriptor>, files: seq<FileName>, f: FileName)
    requires Distinct(files)
    ensures multiset(MatchedImages(dist, detect, queries, files))[f]
      == if f in files then CountMatching(dist, queries, detect(f)) else 0
    decreases |queries|
  {
    if queries != [] {
      var n := |queries|;
      var init := queries[..n - 1];
      var earlier := MatchedImages(dist, detect, init, files);
      var last := FaceMatches(dist, detect, queries[n - 1], files);
      MatchedImagesCount(dist, detect, init, files, f);
      FaceMatchesCount(dist, detect, queries[n - 1], files, f);
      assert MatchedImages(dist, detect, queries, files) == earlier + last;
      assert multiset(earlier + last)[f] == multiset(earlier)[f] + multiset(last)[f];
    }
  }

  /** Listing order: splitting the listing splits one face's contribution,
      the entries for earlier files coming first. */
  lemma {:induction false} FaceMatchesAppend(dist: Distance, detect: Detector, query: Descriptor, files1: seq<FileName>, files2: seq<FileName>)
    ensures FaceMatches(dist, detect, query, files1 + files2)
      == FaceMatches(dist, detect, query, files1) + FaceMatches(dist, detect, query, files2)
    decreases |files2|
  {
    if files2 == [] {
      assert files1 + files2 == files1;
    } else {
      var init2, last2 := files2[..|files2| - 1], files2[|files2| - 1];
      var all := files1 + files2;
      assert all[..|all| - 1] == files1 + init2;
      assert all[|all| - 1] == last2;
      FaceMatchesAppend(dist, detect, query, files1, init2);
    }
  }

  /** Detection-major order: the entries of earlier query faces all come
      before those of later query faces. */
  lemma {:induction false} MatchedImagesAppend(dist: Distance, detect: Detector, queries1: seq<Descriptor>, queries2: seq<Descriptor>, files: seq<FileName>)
    ensures MatchedImages(dist, detect, queries1 + queries2, files)
      == MatchedImages(dist, detect, queries1, files) + MatchedImages(dist, detect, queries2, files)
    decreases |queries2|
  {
    if queries2 == [] {
      assert queries1 + queries2 == queries1;
    } else {
      var init2, last2 := queries2[..|queries2| - 1], queries2[|queries2| - 1];
      var all := queries1 + queries2;
      assert all[..|all| - 1] == queries1 + init2;
      assert all[|all| - 1] == last2;
      MatchedImagesAppend(dist, detect, queries1, init2, files);
      assert MatchedImages(dist, detect, all, files)
        == MatchedImages(dist, detect, queries1 + init2, files) + FaceMatches(dist, detect, last2, files);
    }
  }
}
