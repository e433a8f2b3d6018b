/** models/face_utils.py: loading the known faces from the image files of a
    folder (the label of a file is its name up to the first '.'), and
    recognising a probe by the first known face the library says it matches. */
module FaceUtils {
  import opened FaceTypes
  import opened PyText

  const NoFaceMessage: string := "No se detect\U{F3} ning\U{FA}n rostro."
  const UnknownMessage: string := "Desconocido"

  /** The file names `load_known_faces` looks at. */
  predicate IsImageName(filename: string) {
    EndsWith(filename, ".jpg") || EndsWith(filename, ".png")
  }

  /** An image name is at least four characters long and ends with '.'
      followed by "jpg" or "png" (the test is case-sensitive). */
  lemma ImageNameEnding(filename: string)
    requires IsImageName(filename)
    ensures |filename| >= 4 && filename[|filename| - 4] == '.'
    ensures filename[|filename| - 3..] == "jpg" || filename[|filename| - 3..] == "png"
  {
    var ending := filename[|filename| - 4..];
    assert ending == ".jpg" || ending == ".png";
    assert filename[|filename| - 3..] == ending[1..];
  }

  /** What the loop of `load_known_faces` does with one listed file. */
  datatype FileLoad = Ignored | Raises | Kept(encoding: Encoding)

  function LoadFile(folder: string, filename: string, files: map<string, ImageBytes>,
                    extract: ImageBytes -> Extraction): FileLoad
  {
    if !IsImageName(filename) then Ignored
    else
      var path := Join(folder, filename);
      if path !in files then Raises
      else
        match extract(files[path])
        case Undecodable => Raises
        case Faces(encodings) => if |encodings| > 0 then Kept(encodings[0]) else Ignored
  }

  /** What happens to one listed file: other names are ignored; an image name
      raises when the file is missing or undecodable, and contributes its
      first face when it has one. */
  lemma LoadFileOutcomes(folder: string, filename: string, files: map<string, ImageBytes>,
                         extract: ImageBytes -> Extraction)
    ensures !IsImageName(filename) ==> LoadFile(folder, filename, files, extract) == Ignored
    ensures var path := Join(folder, filename);
            LoadFile(folder, filename, files, extract).Raises? <==>
              IsImageName(filename) && (path !in files || extract(files[path]).Undecodable?)
    ensures var path := Join(folder, filename);
            LoadFile(folder, filename, files, extract).Kept? <==>
              && IsImageName(filename) && path in files
              && extract(files[path]).Faces? && |extract(files[path]).encodings| > 0
    ensures var path := Join(folder, filename);
            LoadFile(folder, filename, files, extract).Kept? ==>
              LoadFile(folder, filename, files, extract).encoding == extract(files[path]).encodings[0]
  {
  }

  /** The faces kept from the first files of the listing. */
  function KnownFaces(folder: string, listing: seq<string>, files: map<string, ImageBytes>,
                      extract: ImageBytes -> Extraction): (faces: seq<Encoding>)
    ensures |faces| <= |listing|
    decreases |listing|
  {
    if listing == [] then []
    else
      var earlier := KnownFaces(folder, listing[..|listing| - 1], files, extract);
      match LoadFile(folder, listing[|listing| - 1], files, extract)
      case Kept(e) => earlier + [e]
      case _ => earlier
  }

  /** The labels kept alongside; as many as the faces. */
  function KnownNames(folder: string, listing: seq<string>, files: map<string, ImageBytes>,
                      extract: ImageBytes -> Extraction): (names: seq<string>)
    ensures |names| == |KnownFaces(folder, listing, files, extract)|
    decreases |listing|
  {
    if listing == [] then []
    else
      var earlier := KnownNames(folder, listing[..|listing| - 1], files, extract);
      var filename := listing[|listing| - 1];
      if LoadFile(folder, filename, files, extract).Kept? then earlier + [BeforeFirstDot(filename)]
      else earlier
  }

  /** The positions in the listing of the files that are kept, in order. */
  ghost function KeptFiles(folder: string, listing: seq<string>, files: map<string, ImageBytes>,
                           extract: ImageBytes -> Extraction): (kept: seq<nat>)
    ensures |kept| == |KnownFaces(folder, listing, files, extract)|
    ensures forall k :: 0 <= k < |kept| ==> kept[k] < |listing|
    decreases |listing|
  {
    if listing == [] then []
    else
      var earlier := KeptFiles(folder, listing[..|listing| - 1], files, extract);
      if LoadFile(folder, listing[|listing| - 1], files, extract).Kept? then earlier + [|listing| - 1]
      else earlier
  }

  /** Entry k of both lists comes from the same file, the k-th one kept: the
      first encoding of its image and the label of its name, which is an
      image name. */
  lemma {:induction false} KnownListsPairFiles(folder: string, listing: seq<string>,
                                                files: map<string, ImageBytes>,
                                                extract: ImageBytes -> Extraction)
    ensures var kept := KeptFiles(folder, listing, files, extract);
            forall k :: 0 <= k < |kept| ==>
              && IsImageName(listing[kept[k]])
              && LoadFile(folder, listing[kept[k]], files, extract)
                 == Kept(KnownFaces(folder, listing, files, extract)[k])
              && KnownNames(folder, listing, files, extract)[k] == BeforeFirstDot(listing[kept[k]])
    decreases |listing|
  {
    if listing != [] {
      var init := listing[..|listing| - 1];
      KnownListsPairFiles(folder, init, files, extract);
      var kept, keptInit := KeptFiles(folder, listing, files, extract), KeptFiles(folder, init, files, extract);
      var faces, facesInit := KnownFaces(folder, listing, files, extract), KnownFaces(folder, init, files, extract);
      var names, namesInit := KnownNames(folder, listing, files, extract), KnownNames(folder, init, files, extract);
      forall k | 0 <= k < |kept|
        ensures IsImageName(listing[kept[k]])
        ensures LoadFile(folder, listing[kept[k]], files, extract) == Kept(faces[k])
        ensures names[k] == BeforeFirstDot(listing[kept[k]])
      {
        if k < |keptInit| {
          assert kept[k] == keptInit[k] && faces[k] == facesInit[k] && names[k] == namesInit[k];
          assert listing[kept[k]] == init[keptInit[k]];
        }
      }
    }
  }

  /** Files are kept in listing order, and a file is kept exactly when it has
      an image name and its image yields at least one face. */
  lemma {:induction false} KeptFilesExact(folder: string, listing: seq<string>,
                                           files: map<string, ImageBytes>,
                                           extract: ImageBytes -> Extraction)
    ensures var kept := KeptFiles(folder, listing, files, extract);
            && (forall a, b :: 0 <= a < b < |kept| ==> kept[a] < kept[b])
            && (forall i :: 0 <= i < |listing| ==>
                  (LoadFile(folder, listing[i], files, extract).Kept? <==> i in kept))
    decreases |listing|
  {
    if listing != [] {
      var init := listing[..|listing| - 1];
      KeptFilesExact(folder, init, files, extract);
      var kept, keptInit := KeptFiles(folder, listing, files, extract), KeptFiles(folder, init, files, extract);
      assert kept == keptInit || kept == keptInit + [|listing| - 1];
      forall i | 0 <= i < |listing|
        ensures LoadFile(folder, listing[i], files, extract).Kept? <==> i in kept
      {
        if i < |init| {
          assert listing[i] == init[i];
          assert i in kept <==> i in keptInit;
        }
      }
    }
  }

  /** A label never contains '.', and for an image name it is strictly
      shorter than the name: the extension at least is cut off. */
  lemma LabelDropsExtension(filename: string)
    requires IsImageName(filename)
    ensures '.' !in BeforeFirstDot(filename)
    ensures |BeforeFirstDot(filename)| < |filename|
  {
    assert filename[|filename| - 4] == '.';
  }

  /** The label is the text before the first '.', which need not be the stem
      `os.path.splitext` gives: "a.b.jpg" is labelled "a", not "a.b". */
  lemma LabelIsNotStem()
    ensures BeforeFirstDot("a.b.jpg") == "a"
    ensures SplitExt("a.b.jpg").0 == "a.b"
  {
    assert BeforeFirstDot("a.b.jpg") == ['a'] + BeforeFirstDot(".b.jpg");
    assert RFind("a.b.jpg", '/') == -1 by {
      assert "a.b.jpg"[..6] == "a.b.jp";
      assert "a.b.jp"[..5] == "a.b.j";
      assert "a.b.j"[..4] == "a.b.";
      assert "a.b."[..3] == "a.b";
      assert "a.b"[..2] == "a.";
      assert "a."[..1] == "a";
      assert "a"[..0] == "";
    }
    assert RFind("a.b.jpg", '.') == 3 by {
      assert "a.b.jpg"[..6] == "a.b.jp";
      assert "a.b.jp"[..5] == "a.b.j";
      assert "a.b.j"[..4] == "a.b.";
    }
    assert !AllDots("a.b.jpg"[0..3]);
  }

  /** In general the label is a prefix of the `os.path.splitext` stem, and
      strictly shorter exactly when the stem itself contains a '.'. */
  lemma LabelIsPrefixOfStem(filename: string)
    ensures BeforeFirstDot(filename) <= SplitExt(filename).0
    ensures |BeforeFirstDot(filename)| < |SplitExt(filename).0| <==> '.' in SplitExt(filename).0
  {
    var b, stem, ext := BeforeFirstDot(filename), SplitExt(filename).0, SplitExt(filename).1;
    assert filename == stem + ext;
    assert forall i :: 0 <= i < |stem| ==> stem[i] == filename[i];
    assert forall i :: 0 <= i < |b| ==> b[i] == filename[i];
    if |b| < |stem| {
      assert stem[|b|] == filename[|b|] == '.';
      assert b == stem[..|b|];
    } else {
      assert b[..|stem|] == stem;
      assert |ext| > 0 ==> filename[|stem|] == '.';
      assert b == stem;
    }
  }

  datatype LoadResult = Loaded(knownFaces: seq<Encoding>, knownNames: seq<string>) | Raised

  /** `load_known_faces(folder)` given the directory listing of `folder`: an
      image that cannot be loaded raises out of the function; otherwise the
      first face of every image name whose image has a face, with its label. */
  method LoadKnownFaces(folder: string, listing: seq<string>, files: map<string, ImageBytes>,
                        extract: ImageBytes -> Extraction)
    returns (r: LoadResult)
    ensures r.Raised? <==> exists i :: 0 <= i < |listing| && LoadFile(folder, listing[i], files, extract).Raises?
    ensures r.Loaded? ==> && r.knownFaces == KnownFaces(folder, listing, files, extract)
                          && r.knownNames == KnownNames(folder, listing, files, extract)
  {
    var knownFaces, knownNames := [], [];
    for i := 0 to |listing|
      invariant forall j :: 0 <= j < i ==> !LoadFile(folder, listing[j], files, extract).Raises?
      invariant knownFaces == KnownFaces(folder, listing[..i], files, extract)
      invariant knownNames == KnownNames(folder, listing[..i], files, extract)
    {
      assert listing[..i + 1][..i] == listing[..i];
      var filename := listing[i];
      if EndsWith(filename, ".jpg") || EndsWith(filename, ".png") {
        var path := Join(folder, filename);
        if path !in files {
          return Raised;
        }
        var image := extract(files[path]);
        if image.Undecodable? {
          return Raised;
        }
        if |image.encodings| > 0 {
          knownFaces := knownFaces + [image.encodings[0]];
          knownNames := knownNames + [BeforeFirstDot(filename)];
        }
      }
    }
    assert listing[..|listing|] == listing;
    return Loaded(knownFaces, knownNames);
  }

  /** `True in results` / `results.index(True)`: the first index holding
      `true`, if any. */
  function FirstTrue(results: seq<bool>): (r: Option<nat>)
    ensures r.Some? ==> r.value < |results| && results[r.value]
                        && forall j :: 0 <= j < r.value ==> !results[j]
    ensures r.None? ==> forall j :: 0 <= j < |results| ==> !results[j]
  {
    if results == [] then None
    else if results[0] then Some(0)
    else
      match FirstTrue(results[1..])
      case Some(i) => Some(i + 1)
      case None => None
  }

  /** `compare_faces(known_faces, probe)`: one verdict per known face, from
      the library's comparison of that face with the probe. */
  function CompareFaces(knownFaces: seq<Encoding>, probe: Encoding,
                        matches: (Encoding, Encoding) -> bool): (results: seq<bool>)
    ensures |results| == |knownFaces|
    ensures forall i :: 0 <= i < |results| ==> results[i] == matches(knownFaces[i], probe)
  {
    seq(|knownFaces|, i requires 0 <= i < |knownFaces| => matches(knownFaces[i], probe))
  }

  /** What `recognize_face` does: return a string, or raise. */
  datatype Reply = RaisesError | Returns(text: string)

  /** `recognize_face`, given what the library extracts from the probe image:
      the name of the first known face that matches the probe's first face,
      "Desconocido" when none matches, and the no-face message when the probe
      has no face. An unreadable probe image raises. */
  function RecognizeFace(probe: Extraction, knownFaces: seq<Encoding>, knownNames: seq<string>,
                         matches: (Encoding, Encoding) -> bool): (r: Reply)
    requires |knownFaces| <= |knownNames|
    ensures r.RaisesError? <==> probe.Undecodable?
    ensures probe == Faces([]) ==> r == Returns(NoFaceMessage)
    ensures probe.Faces? && |probe.encodings| > 0 ==>
              || (exists i :: && 0 <= i < |knownFaces|
                              && matches(knownFaces[i], probe.encodings[0])
                              && (forall j :: 0 <= j < i ==> !matches(knownFaces[j], probe.encodings[0]))
                              && r == Returns(knownNames[i]))
              || (&& (forall i :: 0 <= i < |knownFaces| ==> !matches(knownFaces[i], probe.encodings[0]))
                  && r == Returns(UnknownMessage))
  {
    match probe
    case Undecodable => RaisesError
    case Faces(encodings) =>
      if |encodings| == 0 then Returns(NoFaceMessage)
      else
        var results := CompareFaces(knownFaces, encodings[0], matches);
        assert forall i :: 0 <= i < |knownFaces| ==> results[i] == matches(knownFaces[i], encodings[0]);
        match FirstTrue(results)
        case Some(i) => Returns(knownNames[i])
        case None => Returns(UnknownMessage)
  }

  /** The no-face message is returned exactly when the probe has no face,
      unless some known name is spelled like that message. */
  lemma NoFaceMessageExactly(probe: Extraction, knownFaces: seq<Encoding>, knownNames: seq<string>,
                             matches: (Encoding, Encoding) -> bool)
    requires |knownFaces| <= |knownNames|
    requires probe.Faces?
    requires NoFaceMessage !in knownNames
    ensures RecognizeFace(probe, knownFaces, knownNames, matches) == Returns(NoFaceMessage)
            <==> |probe.encodings| == 0
  {
    if |probe.encodings| > 0 {
      var r := RecognizeFace(probe, knownFaces, knownNames, matches);
      if i :| 0 <= i < |knownFaces| && r == Returns(knownNames[i]) {
        assert knownNames[i] in knownNames;
      } else {
        assert r == Returns(UnknownMessage);
        assert UnknownMessage[0] != NoFaceMessage[0];
      }
    }
  }

  /** With no known faces a probe with a face is always "Desconocido". */
  lemma NoKnownFacesUnknown(probe: Extraction, knownNames: seq<string>,
                            matches: (Encoding, Encoding) -> bool)
    requires probe.Faces? && |probe.encodings| > 0
    ensures RecognizeFace(probe, [], knownNames, matches) == Returns(UnknownMessage)
  {
  }
}
