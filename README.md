# Face enrollment service: a Dafny model of its matching and bookkeeping

EmployeeFaceManager is a small Flask service. `register` takes a name, an
e-mail and a photo. It rejects the photo when it looks like an already
enrolled face. Otherwise it stores the photo under a unique name and inserts
a row into the `users` table. `recognize` takes a photo and shows the name of
the closest enrolled face, or a not-found label. `models/face_utils.py` holds
a folder-based variant of the same two operations.

This project models, in Dafny:

- the matching rule `is_duplicate` (module `Matching`): the first face of the
  probe is compared with every known face; the name of the first nearest one
  is returned when its distance is within the tolerance;
- the loop that rebuilds `known_faces` / `known_names` from the users table,
  skipping every row whose image cannot be loaded or has no face (module
  `App`, method `LoadEnrolledFaces`, with spec functions `KnownFaces`,
  `KnownNames` and `KeptRows`);
- the `register` and `recognize` handlers as state changes of a `Server`
  object. The object holds the users table (a sequence of rows in table
  order) and the files (a map from path to bytes). Each handler is proved
  equal to a function of the state it starts from (`RegisterEffect`,
  `RecognizeEffect`), and the lemmas are stated about those functions;
- the file-name logic: `os.path.splitext`, `os.path.join`, `str(int)`,
  `str.endswith` and `str.split('.')[0]` (module `PyText`);
- `load_known_faces` and `recognize_face` of `models/face_utils.py` (module
  `FaceUtils`).

The face-recognition library is not modelled. Its results are oracle
parameters:

- `extract`: what `load_image_file` + `face_encodings` give for some image
  bytes. That is either `Undecodable` (the library raises) or the list of
  face encodings.
- `distance`: the distance `face_distance` computes between two encodings.
- `matches`: the verdict `compare_faces` gives for one known face and the
  probe.

Distances are `real`. The timestamp `int(time.time())` is a `nat`
parameter. A missing file is a path absent from the file map; loading it
raises.

In these places the model follows the code as written:

- An enrollment photo with no face is not refused. `is_duplicate` returns
  `None` both for "no face" and for "no match", so `register` stores such a
  photo (`RegisterEffect`'s last ensures clause).
- A match whose name is the empty string is falsy in Python. `register`
  then stores the photo, and `recognize` shows the not-found label.
- The stored name `stem_timestamp.ext` is unique only across different
  seconds (`FinalPathsDistinct`). Two enrollments of the same file name in
  the same second get the same path, and `os.rename` overwrites the first
  file.
- The temporary name `temp_<name>` and the recognition upload name can also
  land on an enrolled image's path. The later save overwrites that image.
  The file map captures this: every lemma about a later request is stated
  over the files as that request finds them.
- An unreadable upload raises inside `is_duplicate`, and nothing catches it.
  The request fails with the temporary file still on disk and the table
  unchanged (`RegisterCrashed`, `RecognizeCrashed`).

## Model

| member | source | states |
|---|---|---|
| Matching.ArgMin | app.py:38 | `np.argmin`: the result is an index of the minimum distance, and every earlier index holds a strictly larger one, so the first minimum wins ties |
| Matching.IsDuplicate | app.py:27-42 | no face in the probe gives `None`; no known faces gives `None`. The result is a name exactly when some known face lies within the tolerance of the probe's first face. That name belongs to a first nearest known face, whose distance is within the tolerance |
| Matching.FirstNearestWithinToleranceWins | app.py:37-40 | when known face i is the first nearest one and within the tolerance, the result is exactly `known_names[i]`. An exact tie therefore goes to the earlier enrollee |
| Matching.MatchIsKnownName | app.py:40 | a returned name is one of the names paired with a known face |
| Matching.OnlyFirstProbeFaceCounts | app.py:34 | two probes whose first encodings agree get the same answer, whatever other faces they contain |
| Matching.Distances | app.py:37 | `face_distance`: one distance per known face, in order, each the library's distance to the probe |
| PyText.RFind | app.py:88 | the last index of a character, or -1: the index holds that character and no later one does |
| PyText.SplitExt | app.py:88 | `os.path.splitext`: stem + extension recompose the name. The extension is empty, or it starts with '.' and contains no other '.' and no '/' |
| PyText.SplitExtAtLastDot | app.py:88 | `os.path.splitext` splits at the last '.' when it lies in the last path component and is preceded there by something other than dots, and otherwise returns the whole name and "". A non-empty extension leaves a non-dot character of the last component in the stem |
| PyText.StemKeepsFirstChar | app.py:88 | the `splitext` stem of a non-empty name is non-empty and starts with the name's first character |
| PyText.JoinShape | app.py:60 | `os.path.join`: the result ends with the second part; an absolute second part is the whole result; otherwise the result starts with the folder |
| PyText.EndsWithChars | models/face_utils.py:9 | `endswith` holds exactly when the last characters of the string equal the suffix, one by one |
| PyText.NatToStr | app.py:89 | `str(int(...))` of a non-negative integer is a non-empty string of decimal digits |
| PyText.ParseNatToStr | app.py:89 | reading the decimal digits back gives the original number |
| PyText.NatToStrInjective | app.py:89 | different timestamps print differently |
| PyText.JoinInjective | app.py:89 | `os.path.join` onto a relative folder maps different names to different paths |
| PyText.BeforeFirstDot | models/face_utils.py:14 | `split('.')[0]` is a prefix of the name and contains no '.'. It is the whole name, or the name continues with a '.' |
| App.RowFaceIsFirstFace | app.py:72-78 | a row contributes a face exactly when its image file exists, decodes and has at least one face; the face contributed is the first one |
| App.KnownFaces | app.py:69-75 | the loop adds at most one face per row |
| App.KnownNames | app.py:69-78 | `known_names` always has as many entries as `known_faces` |
| App.KeptRows | app.py:71-76 | the kept row indices are valid rows, one per kept face |
| App.KnownListsPairRows | app.py:71-76 | entry k of `known_faces` is the first face of the k-th kept row's image, and entry k of `known_names` is that row's name |
| App.KeptRowsExact | app.py:71-78 | rows are kept in table order. A row is kept exactly when its image exists, decodes and has a face; failing rows are skipped and the loop goes on |
| App.LoadableRowIsKnown | app.py:73-75 | the first face of every loadable row is among the known faces |
| App.KnownNameIsUserName | app.py:76 | every known name is the name of some row of the table |
| App.LoadEnrolledFaces | app.py:69-78 | the loop (repeated at app.py:120-130) returns exactly the lists `KnownFaces` / `KnownNames` of the table |
| App.TempPathInUploadFolder | app.py:60 | the temporary path is the upload folder, "/temp_" and the client's file name; the prefix makes the joined part relative even for an absolute client name, so the folder is never dropped |
| App.FinalPathPlacement | app.py:88-89 | the final name starts with the upload name's first character. The `os.path.join` at app.py:89 gives the final name under the upload folder, except for an absolute client file name, where it gives the final name alone |
| App.FinalNameInsertsTimestamp | app.py:88-89 | the final name is the upload name with "_" and the timestamp inserted between stem and extension; removing them gives the upload name back |
| App.FinalPathsDistinct | app.py:88-90 | the same upload name at two different timestamps gets two different stored paths |
| App.RegisterEffect | app.py:53-99 | the request fails exactly when the upload is not a readable image, and then only the temporary file has been written. For a readable upload, `is_duplicate` is run against the faces rebuilt from the table with the temporary file in place. The request is refused exactly when that answer is truthy, and the name reported is that answer. On refusal the table is unchanged and the temporary file is gone. Otherwise exactly one row (name, e-mail, final path) is appended and the photo sits at the final path. A photo with no face is stored |
| App.RecognizeEffect | app.py:105-137 | the table never changes. A missing upload or an empty file name is refused without touching the files. Otherwise the upload is saved at `os.path.join` of the upload folder and its own name, and the request fails exactly when it is not a readable image. For a readable upload the page shows `is_duplicate`'s answer against the faces rebuilt from the table, when that answer is truthy, and "No encontrado 😕" otherwise. A shown result is never empty, and a probe with no face shows "No encontrado 😕" |
| App.DuplicateNameIsEnrolled | app.py:81-84 | the name reported for a duplicate is the name of a row of the users table |
| App.RegisterTwiceRejectsSecond | app.py:60-95 | once a photo with a face is stored, registering the same photo again is rejected as a duplicate. This holds when the library puts a face within 0.5 of itself and no enrolled name is empty |
| App.RecognizeAfterRegister | app.py:111-135 | after a photo is stored, recognising the same photo shows the name of an enrolled user, under the same assumptions |
| App.RecognizeEmptyTableNotFound | app.py:133-135 | with an empty users table every readable photo is reported "No encontrado 😕" |
| App.Server.Register | app.py:53-99 | the handler, step by step (save temp, load, check, remove or rename + insert), ends in the outcome and state `RegisterEffect` gives |
| App.Server.Recognize | app.py:105-137 | the handler, step by step (check upload, save, load, match, sentinel), ends in the outcome and state `RecognizeEffect` gives |
| FaceUtils.ImageNameEnding | models/face_utils.py:9 | a name passing the image test ends with ".jpg" or ".png", case-sensitively |
| FaceUtils.LoadFileOutcomes | models/face_utils.py:9-13 | a non-image name is ignored. An image name raises exactly when its file is missing or undecodable, and is kept, with its first face, exactly when it has a face |
| FaceUtils.KnownFaces | models/face_utils.py:6-13 | the loop adds at most one face per listed file |
| FaceUtils.KnownNames | models/face_utils.py:6-15 | the labels list has as many entries as the faces list |
| FaceUtils.KeptFiles | models/face_utils.py:8-13 | the kept positions are valid listing positions, one per kept face |
| FaceUtils.KnownListsPairFiles | models/face_utils.py:8-14 | entry k of both lists comes from the k-th kept file. That file has a ".jpg" or ".png" name. Its first face and its label `split('.')[0]` are entry k |
| FaceUtils.KeptFilesExact | models/face_utils.py:8-13 | files are kept in listing order. A file is kept exactly when it has an image name and its image has a face |
| FaceUtils.LabelDropsExtension | models/face_utils.py:9-14 | a label has no '.', and for an image name it is strictly shorter than the name |
| FaceUtils.LabelIsPrefixOfStem | models/face_utils.py:14 | the label `split('.')[0]` is a prefix of the `splitext` stem, and strictly shorter exactly when the stem contains a '.' |
| FaceUtils.LabelIsNotStem | models/face_utils.py:14 | the label can differ from the `splitext` stem: "a.b.jpg" is labelled "a", while its stem is "a.b" (`LabelIsPrefixOfStem` says exactly when they differ) |
| FaceUtils.LoadKnownFaces | models/face_utils.py:5-15 | raises exactly when some image-named file cannot be loaded. Otherwise it returns exactly `KnownFaces` / `KnownNames` of the listing |
| FaceUtils.CompareFaces | models/face_utils.py:25 | `compare_faces`: one verdict per known face, in order, each the library's verdict for that face and the probe |
| FaceUtils.FirstTrue | models/face_utils.py:26-27 | `results.index(True)`: the first true position, or none when no result is true |
| FaceUtils.RecognizeFace | models/face_utils.py:18-30 | raises exactly when the probe is unreadable. No face gives "No se detectó ningún rostro.". Otherwise the result is the name at the first matching known face, or "Desconocido" when none matches |
| FaceUtils.NoFaceMessageExactly | models/face_utils.py:22-23 | the no-face message comes back exactly when the probe has no face, provided no known name is spelled like it |
| FaceUtils.NoKnownFacesUnknown | models/face_utils.py:25-30 | with no known faces, a probe with a face is "Desconocido" |

## Left out

- Flask routing, the GET branch of `register`, `index`, `empleados`, templates, `flash` and `redirect`: presentation only. The outcome datatypes stand for what is flashed or rendered.
- Missing form fields in `register` (`request.form["nombre"]`, `request.files["foto"]`): Flask answers 400 before the handler's logic runs.
- The MySQL connection: the users table is a sequence in insertion order. `SELECT` without `ORDER BY` is taken to return that order. Database failures, NULL columns and the `SELECT *` listing are not modelled.
- File-system failures of `save`, `rename`, `remove` and `makedirs` (missing directory, permissions), and the startup `makedirs`: I/O. Saving writes the map, removing deletes a key, and renaming moves the bytes.
- The face-recognition library: image decoding, detection, encodings, the Euclidean distance, `compare_faces`' default tolerance 0.6, and float rounding. All are oracles. Encodings of different lengths, which would make numpy raise, are not considered.
- Matching.IsDuplicate: takes the encodings already extracted from the probe. The exception `load_image_file` raises inside it for an unreadable probe is modelled by its callers, as `RegisterCrashed` / `RecognizeCrashed`.
- FaceUtils.LoadKnownFaces: `os.listdir` is replaced by the listing passed in, in the order given.
- App.RecognizeAfterRegister: promises the name of some enrolled user, not the new enrollee's own name. An earlier enrollee at the same or a smaller distance wins the argmin, as the code does.
- App.RegisterTwiceRejectsSecond: assumes the library puts a face within the tolerance of itself. The model cannot derive that, because the distance is an oracle.
- Path normalisation: the file map is keyed by the joined path as spelled, so two spellings of one file (`x/../y.jpg` and `y.jpg`, or a relative and an absolute spelling) are two keys. The client's file name reaches `os.path.join` unsanitised. In `recognize` (app.py:111) this makes such aliasing reachable. The model does not cover `..` components or symbolic links.
- App.FinalPathPlacement: states only what `os.path.join` gives at app.py:89. In the program, a client file name containing '/' (an absolute name, "a/b.jpg", "../x.jpg") makes `foto.save` at app.py:61 fail, unless a `temp_…` directory already exists in the upload folder. Nothing creates one, so `register` normally never reaches app.py:89 with such a name. The model lets every save succeed.
- The race between concurrent enrollments, and the hard-coded configuration and credentials.
