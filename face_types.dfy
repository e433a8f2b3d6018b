/** Values shared by the enrollment service and the face utilities: image bytes,
    face encodings and what the face-recognition library reports for an image.
    The library itself (image decoding, face detection, encoding, distances) is
    not modelled; its results are supplied as oracle functions by the callers. */
module FaceTypes {

  newtype byte = x: int | 0 <= x < 256

  /** The bytes of an image file as stored on disk or uploaded. */
  type ImageBytes = seq<byte>

  /** A face encoding: the fixed-length vector of floats the library computes
      for one detected face. */
  type Encoding = seq<real>

  /** What `load_image_file` followed by `face_encodings` yields for one image:
      either the image cannot be decoded (the library raises), or the list of
      encodings, one per detected face, possibly empty. */
  datatype Extraction = Undecodable | Faces(encodings: seq<Encoding>)

  datatype Option<T> = None | Some(value: T)

  /** Python truthiness of an optional string: `None` and `""` are falsy. */
  predicate Truthy(s: Option<string>) {
    s.Some? && s.value != ""
  }
}
