/** The duplicate / identity check of the enrollment service (`is_duplicate`
    in app.py): compare the first face of the probe image against every known
    face and return the name of the nearest one when it lies within the
    tolerance. Ties go to the earliest known face, as `np.argmin` does. */
module Matching {
  import opened FaceTypes

  /** `face_distance(known_faces, probe)`: one distance per known face, in the
      order of the known faces. The distance itself is the library's oracle. */
  function Distances(knownFaces: seq<Encoding>, probe: Encoding,
                     distance: (Encoding, Encoding) -> real): (d: seq<real>)
    ensures |d| == |knownFaces|
    ensures forall i :: 0 <= i < |d| ==> d[i] == distance(knownFaces[i], probe)
  {
    seq(|knownFaces|, i requires 0 <= i < |knownFaces| => distance(knownFaces[i], probe))
  }

  /** `i` is the first index at which `d` takes its minimum value. */
  ghost predicate IsFirstMinimum(d: seq<real>, i: int) {
    && 0 <= i < |d|
    && (forall j :: 0 <= j < |d| ==> d[i] <= d[j])
    && (forall j :: 0 <= j < i ==> d[i] < d[j])
  }

  /** `np.argmin(d)`: scans from the front and keeps the first minimum. */
  function ArgMin(d: seq<real>): (k: nat)
    requires |d| > 0
    ensures IsFirstMinimum(d, k)
  {
    if |d| == 1 then 0
    else
      var k' := ArgMin(d[..|d| - 1]);
      if d[|d| - 1] < d[k'] then |d| - 1 else k'
  }

  /** At most one index is the first minimum. */
  lemma FirstMinimumUnique(d: seq<real>, i: int, k: int)
    requires IsFirstMinimum(d, i) && IsFirstMinimum(d, k)
    ensures i == k
  {
    assert d[i] == d[k];
  }

  /** `is_duplicate`, given the encodings the library found in the probe image:
      `None` when the probe has no face or nothing known lies within
      `tolerance`, otherwise the name at the first nearest known face. */
  function IsDuplicate(probeEncodings: seq<Encoding>, knownFaces: seq<Encoding>,
                       knownNames: seq<string>, tolerance: real,
                       distance: (Encoding, Encoding) -> real): (r: Option<string>)
    requires |knownFaces| <= |knownNames|
    ensures |probeEncodings| == 0 ==> r == None
    ensures |knownFaces| == 0 ==> r == None
    ensures r.Some? <==>
              && |probeEncodings| > 0
              && exists i :: 0 <= i < |knownFaces| && distance(knownFaces[i], probeEncodings[0]) <= tolerance
    ensures r.Some? ==>
              exists i :: && IsFirstMinimum(Distances(knownFaces, probeEncodings[0], distance), i)
                          && distance(knownFaces[i], probeEncodings[0]) <= tolerance
                          && r.value == knownNames[i]
  {
    if |probeEncodings| == 0 then None
    else
      var probe := probeEncodings[0];
      if |knownFaces| > 0 then
        var d := Distances(knownFaces, probe, distance);
        var i := ArgMin(d);
        if d[i] <= tolerance then Some(knownNames[i])
        else
          assert forall j :: 0 <= j < |knownFaces| ==> d[j] == distance(knownFaces[j], probe);
          None
      else None
  }

  /** The name returned is always one of the names paired with a known face. */
  lemma MatchIsKnownName(probeEncodings: seq<Encoding>, knownFaces: seq<Encoding>,
                         knownNames: seq<string>, tolerance: real,
                         distance: (Encoding, Encoding) -> real)
    requires |knownFaces| <= |knownNames|
    requires IsDuplicate(probeEncodings, knownFaces, knownNames, tolerance, distance).Some?
    ensures IsDuplicate(probeEncodings, knownFaces, knownNames, tolerance, distance).value
              in knownNames[..|knownFaces|]
  {
    var r := IsDuplicate(probeEncodings, knownFaces, knownNames, tolerance, distance);
    var i :| && IsFirstMinimum(Distances(knownFaces, probeEncodings[0], distance), i)
             && r.value == knownNames[i];
    assert knownNames[..|knownFaces|][i] == r.value;
  }

  /** The match is fully determined: when known face `i` is the first nearest
      one and lies within the tolerance, the result is exactly its name, so an
      exact tie goes to the earlier known face. */
  lemma FirstNearestWithinToleranceWins(probeEncodings: seq<Encoding>, knownFaces: seq<Encoding>,
                                        knownNames: seq<string>, tolerance: real,
                                        distance: (Encoding, Encoding) -> real, i: nat)
    requires |knownFaces| <= |knownNames|
    requires |probeEncodings| > 0
    requires IsFirstMinimum(Distances(knownFaces, probeEncodings[0], distance), i)
    requires distance(knownFaces[i], probeEncodings[0]) <= tolerance
    ensures IsDuplicate(probeEncodings, knownFaces, knownNames, tolerance, distance) == Some(knownNames[i])
  {
    var d := Distances(knownFaces, probeEncodings[0], distance);
    FirstMinimumUnique(d, i, ArgMin(d));
  }

  /** Only the first face found in the probe image is compared: images whose
      first encodings agree get the same answer, whatever else they contain. */
  lemma OnlyFirstProbeFaceCounts(p1: seq<Encoding>, p2: seq<Encoding>, knownFaces: seq<Encoding>,
                                 knownNames: seq<string>, tolerance: real,
                                 distance: (Encoding, Encoding) -> real)
    requires |knownFaces| <= |knownNames|
    requires |p1| > 0 && |p2| > 0 && p1[0] == p2[0]
    ensures IsDuplicate(p1, knownFaces, knownNames, tolerance, distance)
         == IsDuplicate(p2, knownFaces, knownNames, tolerance, distance)
  {
  }
}
