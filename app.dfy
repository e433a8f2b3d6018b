/** The enrollment service of app.py: the loop that rebuilds the known faces
    from the users table, the `register` workflow (temporary upload, duplicate
    check, unique final name, insert) and the `recognize` workflow.

    The users table is a sequence of records in table order and the upload
    directory is a map from path to file contents; the face-recognition
    library is the pair of oracles in `Oracles`. */
module App {
  import opened FaceTypes
  import opened PyText
  import opened Matching

  const UploadFolder: string := "static/uploads"
  /** The tolerance both workflows pass to `is_duplicate`. */
  const Tolerance: real := 0.5
  /** What `recognize` shows when nothing is recognised. */
  const NotFoundLabel: string := "No encontrado \U{1F615}"

  /** A row of the `users` table. */
  datatype UserRecord = UserRecord(name: string, email: string, imagePath: string)

  /** The uploaded `foto` field: the client's file name and the bytes. */
  datatype Upload = Upload(filename: string, content: ImageBytes)

  /** The face-recognition library: `load_image_file` + `face_encodings`, and
      the distance `face_distance` computes between two encodings. */
  datatype Oracles = Oracles(extract: ImageBytes -> Extraction,
                             distance: (Encoding, Encoding) -> real)

  /** The external state a request sees: the users table and the files. */
  datatype Db = Db(users: seq<UserRecord>, files: map<string, ImageBytes>)

  datatype RegisterOutcome =
    | RegisterCrashed              // the upload is not a readable image: the request fails
    | AlreadyRegistered(existingName: string)
    | Registered(imagePath: string)

  datatype RecognizeOutcome =
    | PhotoMissing                 // "Debes subir una foto"
    | RecognizeCrashed             // the upload is not a readable image: the request fails
    | Shown(message: string)

  datatype Step<O> = Step(outcome: O, db: Db)

  // ---------------------------------------------------------------------
  // Rebuilding the known faces from the users table
  // ---------------------------------------------------------------------

  /** The encoding the loading loop keeps for one row: the first face of its
      image. `None` where the loop's `try` swallows an exception: the file is
      missing, the image cannot be decoded, or it has no face (`[0]` fails). */
  function RowFace(row: UserRecord, files: map<string, ImageBytes>,
                   extract: ImageBytes -> Extraction): Option<Encoding>
  {
    if row.imagePath !in files then None
    else
      match extract(files[row.imagePath])
      case Undecodable => None
      case Faces(encodings) => if |encodings| == 0 then None else Some(encodings[0])
  }

  /** A row contributes a face exactly when its image is on disk, decodes and
      shows at least one face; the face it contributes is the first one. */
  lemma RowFaceIsFirstFace(row: UserRecord, files: map<string, ImageBytes>,
                           extract: ImageBytes -> Extraction)
    ensures RowFace(row, files, extract).Some? <==>
              && row.imagePath in files
              && extract(files[row.imagePath]).Faces?
              && |extract(files[row.imagePath]).encodings| > 0
    ensures RowFace(row, files, extract).Some? ==>
              RowFace(row, files, extract).value == extract(files[row.imagePath]).encodings[0]
  {
  }

  /** `known_faces` after the loop has gone over `rows`. */
  function KnownFaces(rows: seq<UserRecord>, files: map<string, ImageBytes>,
                      extract: ImageBytes -> Extraction): (faces: seq<Encoding>)
    ensures |faces| <= |rows|
    decreases |rows|
  {
    if rows == [] then []
    else
      var earlier := KnownFaces(rows[..|rows| - 1], files, extract);
      match RowFace(rows[|rows| - 1], files, extract)
      case Some(e) => earlier + [e]
      case None => earlier
  }

  /** `known_names` after the loop has gone over `rows`; it always has as many
      entries as `known_faces`. */
  function KnownNames(rows: seq<UserRecord>, files: map<string, ImageBytes>,
                      extract: ImageBytes -> Extraction): (names: seq<string>)
    ensures |names| == |KnownFaces(rows, files, extract)|
    decreases |rows|
  {
    if rows == [] then []
    else
      var earlier := KnownNames(rows[..|rows| - 1], files, extract);
      if RowFace(rows[|rows| - 1], files, extract).Some? then earlier + [rows[|rows| - 1].name]
      else earlier
  }

  /** The indices of the rows the loop keeps, in order. */
  ghost function KeptRows(rows: seq<UserRecord>, files: map<string, ImageBytes>,
                          extract: ImageBytes -> Extraction): (kept: seq<nat>)
    ensures |kept| == |KnownFaces(rows, files, extract)|
    ensures forall k :: 0 <= k < |kept| ==> kept[k] < |rows|
    decreases |rows|
  {
    if rows == [] then []
    else
      var earlier := KeptRows(rows[..|rows| - 1], files, extract);
      if RowFace(rows[|rows| - 1], files, extract).Some? then earlier + [|rows| - 1]
      else earlier
  }

  /** The two lists are parallel: entry k of both comes from the same row,
      the row the loop kept k-th. */
  lemma {:induction false} KnownListsPairRows(rows: seq<UserRecord>, files: map<string, ImageBytes>,
                                               extract: ImageBytes -> Extraction)
    ensures var kept := KeptRows(rows, files, extract);
            forall k :: 0 <= k < |kept| ==>
              && RowFace(rows[kept[k]], files, extract) == Some(KnownFaces(rows, files, extract)[k])
              && KnownNames(rows, files, extract)[k] == rows[kept[k]].name
    decreases |rows|
  {
    if rows != [] {
      var init := rows[..|rows| - 1];
      KnownListsPairRows(init, files, extract);
      var kept, keptInit := KeptRows(rows, files, extract), KeptRows(init, files, extract);
      var faces, facesInit := KnownFaces(rows, files, extract), KnownFaces(init, files, extract);
      var names, namesInit := KnownNames(rows, files, extract), KnownNames(init, files, extract);
      forall k | 0 <= k < |kept|
        ensures RowFace(rows[kept[k]], files, extract) == Some(faces[k])
        ensures names[k] == rows[kept[k]].name
      {
        if k < |keptInit| {
          assert kept[k] == keptInit[k] && faces[k] == facesInit[k] && names[k] == namesInit[k];
          assert rows[kept[k]] == init[keptInit[k]];
        }
      }
    }
  }

  /** The loop keeps rows in table order, and it keeps exactly the rows whose
      image yields a face: the others are skipped without stopping the loop. */
  lemma {:induction false} KeptRowsExact(rows: seq<UserRecord>, files: map<string, ImageBytes>,
                                          extract: ImageBytes -> Extraction)
    ensures var kept := KeptRows(rows, files, extract);
            && (forall a, b :: 0 <= a < b < |kept| ==> kept[a] < kept[b])
            && (forall i :: 0 <= i < |rows| ==> (RowFace(rows[i], files, extract).Some? <==> i in kept))
    decreases |rows|
  {
    if rows != [] {
      var init := rows[..|rows| - 1];
      KeptRowsExact(init, files, extract);
      var kept, keptInit := KeptRows(rows, files, extract), KeptRows(init, files, extract);
      assert kept == keptInit || kept == keptInit + [|rows| - 1];
      forall i | 0 <= i < |rows|
        ensures RowFace(rows[i], files, extract).Some? <==> i in kept
      {
        if i < |init| {
          assert rows[i] == init[i];
          assert i in kept <==> i in keptInit;
        }
      }
    }
  }

  /** A row whose image yields a face contributes its encoding. */
  lemma LoadableRowIsKnown(rows: seq<UserRecord>, files: map<string, ImageBytes>,
                           extract: ImageBytes -> Extraction, i: nat)
    requires i < |rows| && RowFace(rows[i], files, extract).Some?
    ensures RowFace(rows[i], files, extract).value in KnownFaces(rows, files, extract)
  {
    KnownListsPairRows(rows, files, extract);
    KeptRowsExact(rows, files, extract);
    var kept := KeptRows(rows, files, extract);
    var k :| 0 <= k < |kept| && kept[k] == i;
    assert KnownFaces(rows, files, extract)[k] == RowFace(rows[i], files, extract).value;
  }

  /** Every known name is the name of some row. */
  lemma KnownNameIsUserName(rows: seq<UserRecord>, files: map<string, ImageBytes>,
                            extract: ImageBytes -> Extraction, n: string)
    requires n in KnownNames(rows, files, extract)
    ensures exists i :: 0 <= i < |rows| && rows[i].name == n
  {
    KnownListsPairRows(rows, files, extract);
    var names := KnownNames(rows, files, extract);
    var k :| 0 <= k < |names| && names[k] == n;
    assert rows[KeptRows(rows, files, extract)[k]].name == n;
  }

  /** The loading loop of `register` and `recognize`: for each row, load its
      image and append its first encoding and its name, skipping the row when
      anything fails. */
  method LoadEnrolledFaces(rows: seq<UserRecord>, files: map<string, ImageBytes>,
                           extract: ImageBytes -> Extraction)
    returns (knownFaces: seq<Encoding>, knownNames: seq<string>)
    ensures knownFaces == KnownFaces(rows, files, extract)
    ensures knownNames == KnownNames(rows, files, extract)
  {
    knownFaces, knownNames := [], [];
    for i := 0 to |rows|
      invariant knownFaces == KnownFaces(rows[..i], files, extract)
      invariant knownNames == KnownNames(rows[..i], files, extract)
    {
      assert rows[..i + 1][..i] == rows[..i];
      var row := rows[i];
      if row.imagePath in files {
        var image := extract(files[row.imagePath]);
        if image.Faces? && |image.encodings| > 0 {
          knownFaces := knownFaces + [image.encodings[0]];
          knownNames := knownNames + [row.name];
        }
      }
    }
    assert rows[..|rows|] == rows;
  }

  // ---------------------------------------------------------------------
  // File names
  // ---------------------------------------------------------------------

  /** Where `register` saves the upload before checking it. */
  function TempPath(filename: string): string {
    Join(UploadFolder, "temp_" + filename)
  }

  /** `f"{name_file}_{int(time.time())}{ext}"` with `name_file, ext` from
      `os.path.splitext` of the uploaded file name. */
  function FinalName(filename: string, ts: nat): string {
    var parts := SplitExt(filename);
    parts.0 + "_" + NatToStr(ts) + parts.1
  }

  function FinalPath(filename: string, ts: nat): string {
    Join(UploadFolder, FinalName(filename, ts))
  }

  /** The "temp_" prefix makes the joined part relative, so `os.path.join`
      never drops the upload folder from the temporary path. */
  lemma TempPathInUploadFolder(filename: string)
    ensures TempPath(filename) == UploadFolder + "/temp_" + filename
  {
  }

  /** The final name keeps the upload name's first character, and joining it
      to the upload folder gives the final name under that folder, unless the
      client sent an absolute file name: `os.path.join` then drops the folder. */
  lemma FinalPathPlacement(filename: string, ts: nat)
    ensures |filename| > 0 ==> FinalName(filename, ts)[0] == filename[0]
    ensures |filename| > 0 && filename[0] == '/' ==> FinalPath(filename, ts) == FinalName(filename, ts)
    ensures !(|filename| > 0 && filename[0] == '/') ==>
              FinalPath(filename, ts) == UploadFolder + "/" + FinalName(filename, ts)
  {
    var stem := SplitExt(filename).0;
    if |filename| > 0 {
      StemKeepsFirstChar(filename);
      assert FinalName(filename, ts)[0] == stem[0];
    }
  }

  /** The final name is the original name with "_" and the timestamp inserted
      before the extension. */
  lemma FinalNameInsertsTimestamp(filename: string, ts: nat)
    ensures var stem := SplitExt(filename).0;
            var n := FinalName(filename, ts);
            var tail := "_" + NatToStr(ts);
            && |n| == |filename| + |tail|
            && n[|stem|..|stem| + |tail|] == tail
            && n[..|stem|] + n[|stem| + |tail|..] == filename
  {
    var parts := SplitExt(filename);
    var tail := "_" + NatToStr(ts);
    assert FinalName(filename, ts) == parts.0 + tail + parts.1;
    assert parts.0 + parts.1 == filename;
    InsertionRemovable(parts.0, tail, parts.1);
  }

  lemma InsertionRemovable(stem: string, tail: string, ext: string)
    ensures var n := stem + tail + ext;
            && n[|stem|..|stem| + |tail|] == tail
            && n[..|stem|] + n[|stem| + |tail|..] == stem + ext
  {
    var n := stem + tail + ext;
    assert n[..|stem|] == stem;
    assert n[|stem| + |tail|..] == ext;
  }

  /** The same upload name enrolled at two different seconds gets two
      different stored paths. */
  lemma FinalPathsDistinct(filename: string, ts1: nat, ts2: nat)
    requires ts1 != ts2
    ensures FinalPath(filename, ts1) != FinalPath(filename, ts2)
  {
    if FinalPath(filename, ts1) == FinalPath(filename, ts2) {
      JoinInjective(UploadFolder, FinalName(filename, ts1), FinalName(filename, ts2));
      var stem, ext := SplitExt(filename).0, SplitExt(filename).1;
      var d1, d2 := NatToStr(ts1), NatToStr(ts2);
      var n := FinalName(filename, ts1);
      assert n == stem + "_" + d1 + ext == stem + "_" + d2 + ext;
      assert |d1| == |d2|;
      assert n[|stem| + 1..|stem| + 1 + |d1|] == d1;
      assert n[|stem| + 1..|stem| + 1 + |d2|] == d2;
      NatToStrInjective(ts1, ts2);
      assert false;
    }
  }

  // ---------------------------------------------------------------------
  // The two workflows, as functions of the state they start from
  // ---------------------------------------------------------------------

  /** The answer of `is_duplicate` for a probe against the known faces the
      loading loop rebuilds from `users`, with the files as they are then. */
  function TableMatch(users: seq<UserRecord>, files: map<string, ImageBytes>,
                      probeEncodings: seq<Encoding>, o: Oracles): Option<string>
  {
    IsDuplicate(probeEncodings, KnownFaces(users, files, o.extract), KnownNames(users, files, o.extract),
                Tolerance, o.distance)
  }

  /** `register`: save the upload under its temporary name, rebuild the known
      faces, check for a duplicate; on a (truthy) match remove the temporary
      file, otherwise rename it to its final name and insert the user. */
  function RegisterEffect(db: Db, name: string, email: string, upload: Upload,
                          ts: nat, o: Oracles): (r: Step<RegisterOutcome>)
    ensures r.outcome.RegisterCrashed? <==> o.extract(upload.content).Undecodable?
    ensures r.outcome.RegisterCrashed? ==>
              r.db.files == db.files[TempPath(upload.filename) := upload.content]
    ensures o.extract(upload.content).Faces? ==>
              var m := TableMatch(db.users, db.files[TempPath(upload.filename) := upload.content],
                                  o.extract(upload.content).encodings, o);
              && (r.outcome.AlreadyRegistered? <==> Truthy(m))
              && (Truthy(m) ==> r.outcome.existingName == m.value)
    ensures !r.outcome.Registered? ==> r.db.users == db.users
    ensures r.outcome.AlreadyRegistered? ==>
              && r.outcome.existingName != ""
              && r.db.files == db.files - {TempPath(upload.filename)}
    ensures r.outcome.Registered? ==>
              && r.outcome.imagePath == FinalPath(upload.filename, ts)
              && r.db.users == db.users + [UserRecord(name, email, r.outcome.imagePath)]
              && r.db.files == (db.files - {TempPath(upload.filename)})[r.outcome.imagePath := upload.content]
    ensures o.extract(upload.content) == Faces([]) ==> r.outcome.Registered?
  {
    var temp := TempPath(upload.filename);
    var files := db.files[temp := upload.content];
    match o.extract(files[temp])
    case Undecodable => Step(RegisterCrashed, Db(db.users, files))
    case Faces(encodings) =>
      var existingName := TableMatch(db.users, files, encodings, o);
      if Truthy(existingName) then
        Step(AlreadyRegistered(existingName.value), Db(db.users, files - {temp}))
      else
        var finalPath := FinalPath(upload.filename, ts);
        Step(Registered(finalPath),
             Db(db.users + [UserRecord(name, email, finalPath)], (files - {temp})[finalPath := files[temp]]))
  }

  /** `recognize`: refuse a missing upload, save it under its own name (any
      file already there is overwritten), rebuild the known faces and show the
      matched name, or the not-found label for any falsy match. */
  function RecognizeEffect(db: Db, upload: Option<Upload>, o: Oracles): (r: Step<RecognizeOutcome>)
    ensures r.db.users == db.users
    ensures r.outcome.PhotoMissing? <==> upload.None? || upload.value.filename == ""
    ensures r.outcome.PhotoMissing? ==> r.db == db
    ensures upload.Some? && upload.value.filename != "" ==>
              r.db.files == db.files[Join(UploadFolder, upload.value.filename) := upload.value.content]
    ensures r.outcome.RecognizeCrashed? <==> upload.Some? && upload.value.filename != ""
                                             && o.extract(upload.value.content).Undecodable?
    ensures upload.Some? && upload.value.filename != "" && o.extract(upload.value.content).Faces? ==>
              var m := TableMatch(db.users,
                                  db.files[Join(UploadFolder, upload.value.filename) := upload.value.content],
                                  o.extract(upload.value.content).encodings, o);
              r.outcome == Shown(if Truthy(m) then m.value else NotFoundLabel)
    ensures r.outcome.Shown? ==> r.outcome.message != ""
    ensures upload.Some? && upload.value.filename != "" && o.extract(upload.value.content) == Faces([])
            ==> r.outcome == Shown(NotFoundLabel)
  {
    if upload.None? || upload.value.filename == "" then Step(PhotoMissing, db)
    else
      var path := Join(UploadFolder, upload.value.filename);
      var files := db.files[path := upload.value.content];
      match o.extract(files[path])
      case Undecodable => Step(RecognizeCrashed, Db(db.users, files))
      case Faces(encodings) =>
        var found := TableMatch(db.users, files, encodings, o);
        Step(Shown(if Truthy(found) then found.value else NotFoundLabel), Db(db.users, files))
  }

  // ---------------------------------------------------------------------
  // Properties of the workflows
  // ---------------------------------------------------------------------

  /** With every known name non-empty, a probe whose first face is the first
      face of some loadable row, at a self-distance within the tolerance, is
      always matched, and to the name of some row. */
  lemma SelfMatchIsFound(rows: seq<UserRecord>, files: map<string, ImageBytes>, o: Oracles,
                         encodings: seq<Encoding>, i: nat)
    requires forall j :: 0 <= j < |rows| ==> rows[j].name != ""
    requires |encodings| > 0 && o.distance(encodings[0], encodings[0]) <= Tolerance
    requires i < |rows| && RowFace(rows[i], files, o.extract) == Some(encodings[0])
    ensures var found := IsDuplicate(encodings, KnownFaces(rows, files, o.extract),
                                     KnownNames(rows, files, o.extract), Tolerance, o.distance);
            && Truthy(found)
            && exists j :: 0 <= j < |rows| && rows[j].name == found.value
  {
    var knownFaces := KnownFaces(rows, files, o.extract);
    var knownNames := KnownNames(rows, files, o.extract);
    LoadableRowIsKnown(rows, files, o.extract, i);
    var k :| 0 <= k < |knownFaces| && knownFaces[k] == encodings[0];
    assert o.distance(knownFaces[k], encodings[0]) <= Tolerance;
    var found := IsDuplicate(encodings, knownFaces, knownNames, Tolerance, o.distance);
    MatchIsKnownName(encodings, knownFaces, knownNames, Tolerance, o.distance);
    assert found.value in knownNames by {
      assert knownNames[..|knownFaces|] == knownNames;
    }
    KnownNameIsUserName(rows, files, o.extract, found.value);
  }

  /** The name reported for a duplicate is the name of an enrolled user. */
  lemma DuplicateNameIsEnrolled(db: Db, name: string, email: string, upload: Upload, ts: nat, o: Oracles)
    requires RegisterEffect(db, name, email, upload, ts, o).outcome.AlreadyRegistered?
    ensures exists i :: 0 <= i < |db.users|
                        && db.users[i].name == RegisterEffect(db, name, email, upload, ts, o).outcome.existingName
  {
    var temp := TempPath(upload.filename);
    var files := db.files[temp := upload.content];
    var knownFaces := KnownFaces(db.users, files, o.extract);
    var knownNames := KnownNames(db.users, files, o.extract);
    var encodings := o.extract(upload.content).encodings;
    MatchIsKnownName(encodings, knownFaces, knownNames, Tolerance, o.distance);
    var n := IsDuplicate(encodings, knownFaces, knownNames, Tolerance, o.distance).value;
    assert n in knownNames by {
      assert knownNames[..|knownFaces|] == knownNames;
    }
    KnownNameIsUserName(db.users, files, o.extract, n);
  }

  /** After a photo with a face has been registered, registering the same
      photo again (under any name, file name or time) is rejected as a
      duplicate, provided the library puts a face within the tolerance of
      itself and no enrolled name is empty. */
  lemma {:induction false} RegisterTwiceRejectsSecond(db: Db, name: string, email: string, upload: Upload,
                                                       ts1: nat, name2: string, email2: string,
                                                       filename2: string, ts2: nat, o: Oracles)
    requires name != "" && forall j :: 0 <= j < |db.users| ==> db.users[j].name != ""
    requires o.extract(upload.content).Faces? && |o.extract(upload.content).encodings| > 0
    requires var e := o.extract(upload.content).encodings[0]; o.distance(e, e) <= Tolerance
    requires RegisterEffect(db, name, email, upload, ts1, o).outcome.Registered?
    ensures var db1 := RegisterEffect(db, name, email, upload, ts1, o).db;
            RegisterEffect(db1, name2, email2, Upload(filename2, upload.content), ts2, o).outcome.AlreadyRegistered?
  {
    var encodings := o.extract(upload.content).encodings;
    var db1 := RegisterEffect(db, name, email, upload, ts1, o).db;
    var finalPath := FinalPath(upload.filename, ts1);
    var files2 := db1.files[TempPath(filename2) := upload.content];
    var last := |db1.users| - 1;
    assert db1.users[last] == UserRecord(name, email, finalPath);
    assert files2[finalPath] == upload.content;
    assert RowFace(db1.users[last], files2, o.extract) == Some(encodings[0]);
    SelfMatchIsFound(db1.users, files2, o, encodings, last);
  }

  /** A photo just registered is recognised afterwards: `recognize` with the
      same photo shows the name of an enrolled user rather than the not-found
      label, provided no enrolled name is empty. */
  lemma {:induction false} RecognizeAfterRegister(db: Db, name: string, email: string, upload: Upload,
                                                   ts: nat, filename2: string, o: Oracles)
    requires name != "" && forall j :: 0 <= j < |db.users| ==> db.users[j].name != ""
    requires o.extract(upload.content).Faces? && |o.extract(upload.content).encodings| > 0
    requires var e := o.extract(upload.content).encodings[0]; o.distance(e, e) <= Tolerance
    requires RegisterEffect(db, name, email, upload, ts, o).outcome.Registered?
    requires filename2 != ""
    ensures var db1 := RegisterEffect(db, name, email, upload, ts, o).db;
            var shown := RecognizeEffect(db1, Some(Upload(filename2, upload.content)), o).outcome;
            && shown.Shown?
            && exists j :: 0 <= j < |db1.users| && db1.users[j].name == shown.message
  {
    var encodings := o.extract(upload.content).encodings;
    var db1 := RegisterEffect(db, name, email, upload, ts, o).db;
    var finalPath := FinalPath(upload.filename, ts);
    var files2 := db1.files[Join(UploadFolder, filename2) := upload.content];
    var last := |db1.users| - 1;
    assert db1.users[last] == UserRecord(name, email, finalPath);
    assert files2[finalPath] == upload.content;
    assert RowFace(db1.users[last], files2, o.extract) == Some(encodings[0]);
    SelfMatchIsFound(db1.users, files2, o, encodings, last);
  }

  /** With an empty users table every readable photo is reported not found. */
  lemma RecognizeEmptyTableNotFound(files: map<string, ImageBytes>, upload: Upload, o: Oracles)
    requires upload.filename != "" && o.extract(upload.content).Faces?
    ensures RecognizeEffect(Db([], files), Some(upload), o).outcome == Shown(NotFoundLabel)
  {
  }

  // ---------------------------------------------------------------------
  // The service's external state, updated step by step
  // ---------------------------------------------------------------------

  class Server {
    var users: seq<UserRecord>
    var files: map<string, ImageBytes>

    constructor (users0: seq<UserRecord>, files0: map<string, ImageBytes>)
      ensures users == users0 && files == files0
    {
      users := users0;
      files := files0;
    }

    function State(): Db
      reads this
    {
      Db(users, files)
    }

    /** The `register` POST handler. `ts` is `int(time.time())`. */
    method Register(name: string, email: string, upload: Upload, ts: nat, o: Oracles)
      returns (outcome: RegisterOutcome)
      modifies this
      ensures Step(outcome, State()) == RegisterEffect(old(State()), name, email, upload, ts, o)
    {
      var tempPath := TempPath(upload.filename);
      files := files[tempPath := upload.content];
      var knownFaces, knownNames := LoadEnrolledFaces(users, files, o.extract);
      var probe := o.extract(files[tempPath]);
      if probe.Undecodable? {
        outcome := RegisterCrashed;
        return;
      }
      var existingName := IsDuplicate(probe.encodings, knownFaces, knownNames, Tolerance, o.distance);
      if Truthy(existingName) {
        files := files - {tempPath};
        outcome := AlreadyRegistered(existingName.value);
        return;
      }
      var finalPath := FinalPath(upload.filename, ts);
      files := (files - {tempPath})[finalPath := files[tempPath]];
      users := users + [UserRecord(name, email, finalPath)];
      outcome := Registered(finalPath);
    }

    /** The `recognize` POST handler. */
    method Recognize(upload: Option<Upload>, o: Oracles) returns (outcome: RecognizeOutcome)
      modifies this
      ensures Step(outcome, State()) == RecognizeEffect(old(State()), upload, o)
    {
      if upload.None? || upload.value.filename == "" {
        outcome := PhotoMissing;
        return;
      }
      var path := Join(UploadFolder, upload.value.filename);
      files := files[path := upload.value.content];
      var knownFaces, knownNames := LoadEnrolledFaces(users, files, o.extract);
      var probe := o.extract(files[path]);
      if probe.Undecodable? {
        outcome := RecognizeCrashed;
        return;
      }
      var recognized := IsDuplicate(probe.encodings, knownFaces, knownNames, Tolerance, o.distance);
      if !Truthy(recognized) {
        outcome := Shown(NotFoundLabel);
      } else {
        outcome := Shown(recognized.value);
      }
    }
  }
}
