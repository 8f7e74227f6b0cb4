/** The recognition stage (face-recognition-lambda/face-rec.py): download the
    frame from the fixed stage-1 bucket, detect a face, match its embedding
    against the gallery, write the name to a `.txt` file and upload it. The
    vision libraries, the gallery file and S3 are collaborators whose outcomes
    are given in a `World`; the handler is a pure function of the event and
    that world, returning the response and the side effects it attempted. */
module FaceRec {
  import opened Wrappers
  import opened Events
  import opened PyText
  import opened Matching

  const OutDir: string := "/tmp/"
  const Stage1Bucket: string := "1228911985-stage-1"
  const OutputBucket: string := "1228911985-output"
  const ImageField: string := "img_file_name"

  /** How a vision call ended: it raised, or it returned a value. */
  datatype Call<T> = Raises(message: string) | Returns(value: T)

  /** The vision collaborators, as they behave on the downloaded image.
      `detect` says whether `mtcnn.detect` found boxes (it raises, for one,
      when the image could not be read); `crop` whether `mtcnn(img)` returned
      a face; `load` is `torch.load` of the gallery; `embed` the ResNet
      embedding of the face; `dist` is `torch.dist(...).item()`. */
  datatype Vision<!E> = Vision(
    detect: Call<bool>,
    crop: Call<bool>,
    load: Call<Gallery<E>>,
    embed: Call<E>,
    dist: (E, E) -> real)

  /** The vision steps in the order the recognition function runs them. */
  datatype VisionStep = Detect | Crop | LoadGallery | Embed | Compare

  const AllVisionSteps: seq<VisionStep> := [Detect, Crop, LoadGallery, Embed, Compare]

  /** What `face_recognition_function` returns, with the steps it reached. */
  datatype Recognition = Recognition(name: Option<string>, steps: seq<VisionStep>)

  /** Both detectors report a face, the gallery loads and the face embeds:
      everything the match needs is there. */
  predicate ReachesMatch<E>(v: Vision<E>)
  {
    v.detect == Returns(true) && v.crop == Returns(true) && v.load.Returns? && v.embed.Returns?
  }

  /** `face_recognition_function`: None when a detector finds no face or any
      step raises; otherwise the gallery name nearest the face's embedding.
      No gallery, embedding or distance is touched unless both detectors
      reported a face. */
  function RecognizeFace<E>(v: Vision<E>): (r: Recognition)
    ensures r.steps <= AllVisionSteps && |r.steps| >= 1
    ensures Embed in r.steps <==> v.detect == Returns(true) && v.crop == Returns(true) && v.load.Returns?
    ensures LoadGallery in r.steps <==> v.detect == Returns(true) && v.crop == Returns(true)
    ensures v.detect == Returns(false) ==> r == Recognition(None, [Detect])
    ensures v.detect == Returns(true) && v.crop == Returns(false) ==> r == Recognition(None, [Detect, Crop])
    ensures r.name.Some? <==> ReachesMatch(v) && MatchName(v.embed.value, v.load.value, v.dist).Some?
    ensures ReachesMatch(v) ==> r.name == MatchName(v.embed.value, v.load.value, v.dist)
  {
    match v.detect
    case Raises(_) => Recognition(None, [Detect])
    case Returns(boxes) =>
      if !boxes then Recognition(None, [Detect])
      else match v.crop
      case Raises(_) => Recognition(None, [Detect, Crop])
      case Returns(face) =>
        if !face then Recognition(None, [Detect, Crop])
        else match v.load
        case Raises(_) => Recognition(None, [Detect, Crop, LoadGallery])
        case Returns(g) =>
          match v.embed
          case Raises(_) => Recognition(None, [Detect, Crop, LoadGallery, Embed])
          case Returns(emb) => Recognition(MatchName(emb, g, v.dist), AllVisionSteps)
  }

  /** The side effects the handler attempts, in order. */
  datatype Effect =
    | Download(bucket: string, key: string, path: string)
    | Recognize(path: string)
    | WriteFile(path: string, content: string)
    | Upload(path: string, bucket: string, key: string)

  /** The collaborators' behaviour for one invocation: the S3 download, the
      vision calls, opening and writing the result file, the S3 upload. */
  datatype World<!E> = World(download: Attempt, vision: Vision<E>, write: Attempt, upload: Attempt)

  /** A response and the effects attempted on the way to it. */
  datatype Run = Run(response: Response, effects: seq<Effect>)

  /** `os.path.join("/tmp/", key)`: the key under /tmp, unless the key is an
      absolute path, which then replaces /tmp altogether. */
  function LocalPath(key: string): (p: string)
    ensures |key| > 0 && key[0] == Slash ==> p == key
    ensures (|key| == 0 || key[0] != Slash) ==> p == OutDir + key
  {
    JoinPath(OutDir, key)
  }

  /** `key.split(".")[0] + ".txt"`: everything before the first '.' of the
      whole key (or all of it when it has none), then ".txt". */
  function ResultKey(key: string): (k: string)
    ensures |k| >= 4 && k[|k| - 4..] == ".txt"
    ensures k[..|k| - 4] <= key && Dot !in k[..|k| - 4]
    ensures |k| - 4 == |key| || key[|k| - 4] == Dot
  {
    var stem := FirstField(key, Dot);
    assert (stem + ".txt")[..|stem|] == stem;
    stem + ".txt"
  }

  /** The object key the event names, when it names one as a str. */
  function ImageKey(event: Json): Option<string>
  {
    match Field(event, ImageField)
    case Success(Str(k)) => Some(k)
    case _ => None
  }

  /** The falsy recognition results: None and the empty name. */
  predicate Falsy(name: Option<string>)
  {
    name.None? || name.value == ""
  }

  /** The name recognized in this world, when it is truthy. */
  function NameOf<E>(w: World<E>): Option<string>
  {
    var n := RecognizeFace(w.vision).name;
    if Falsy(n) then None else n
  }

  /** `handler(event, context)` of the recognition stage. Only the
      `img_file_name` entry of the event is read: a missing entry answers
      500 "Error: 'img_file_name'", one that is not a str answers 500 from
      the TypeError of `os.path.join`; a str key goes on to HandleKey. */
  function Handler<E>(event: Json, w: World<E>): (r: Run)
    ensures ImageKey(event).None? ==> r.effects == [] && r.response.statusCode == 500
    ensures event.Object? && ImageField !in event.fields ==>
              r == Run(Response(500, "Error: " + QuoteKey(ImageField)), [])
    ensures ImageKey(event).Some? ==> r == HandleKey(ImageKey(event).value, w)
    ensures Field(event, ImageField).Failure? ==>
              r == Run(Response(500, "Error: " + Describe(Field(event, ImageField).error)), [])
    ensures Field(event, ImageField).Success? && !Field(event, ImageField).value.Str? ==>
              r == Run(Response(500, "Error: " + ("join() argument must be str, bytes, or os.PathLike object, not "
                                                  + QuoteKey(TypeName(Field(event, ImageField).value)))), [])
  {
    match Field(event, ImageField)
    case Failure(e) => Run(Response(500, "Error: " + Describe(e)), [])
    case Success(k) =>
      if !k.Str? then
        var e := TypeError("join() argument must be str, bytes, or os.PathLike object, not " + QuoteKey(TypeName(k)));
        Run(Response(500, "Error: " + Describe(e)), [])
      else HandleKey(k.s, w)
  }

  /** The handler once the key is known. The bucket is always the fixed
      stage-1 bucket. A failed download answers 500 without running
      recognition; a falsy name answers 400 without writing or uploading; a
      truthy name is written to /tmp/<result key> and uploaded, and the
      upload's own failure is swallowed, so the answer is 200. Failing to
      open or write the file answers 500 "Error: <message>" after the
      attempted write, and nothing is uploaded. */
  function HandleKey<E>(key: string, w: World<E>): (r: Run)
    ensures |r.effects| >= 1 && r.effects[0] == Download(Stage1Bucket, key, LocalPath(key))
    ensures w.download.Fails? ==>
              r == Run(Response(500, "Failed to download " + key + " from bucket " + Stage1Bucket + "."),
                       [Download(Stage1Bucket, key, LocalPath(key))])
    ensures Recognize(LocalPath(key)) in r.effects <==> w.download.Done?
    ensures r.response.statusCode == 400 <==> w.download.Done? && NameOf(w).None?
    ensures r.response.statusCode == 200 <==> w.download.Done? && NameOf(w).Some? && w.write.Done?
    ensures r.response.statusCode in {200, 400, 500}
    ensures r.response.statusCode == 400 ==>
              && r.response.body == "No face detected or recognized in " + key + "."
              && r.effects == [Download(Stage1Bucket, key, LocalPath(key)), Recognize(LocalPath(key))]
    ensures |r.effects| > 2 <==> w.download.Done? && NameOf(w).Some?
    ensures |r.effects| > 2 ==> r.effects[2] == WriteFile(OutDir + ResultKey(key), NameOf(w).value)
    ensures w.download.Done? && NameOf(w).Some? && w.write.Fails? ==>
              r.response == Response(500, "Error: " + w.write.message) && |r.effects| == 3
    ensures r.response.statusCode == 200 ==>
              && r.response.body == "Recognized face: " + NameOf(w).value
              && r.effects[2..] == [WriteFile(OutDir + ResultKey(key), NameOf(w).value),
                                    Upload(OutDir + ResultKey(key), OutputBucket, ResultKey(key))]
    ensures r.response.statusCode != 200 ==> forall e :: e in r.effects ==> !e.Upload?
  {
    var path := LocalPath(key);
    var fetch := Download(Stage1Bucket, key, path);
    if w.download.Fails? then
      Run(Response(500, "Failed to download " + key + " from bucket " + Stage1Bucket + "."), [fetch])
    else
      var name := RecognizeFace(w.vision).name;
      if Falsy(name) then
        Run(Response(400, "No face detected or recognized in " + key + "."), [fetch, Recognize(path)])
      else
        var outKey := ResultKey(key);
        var outPath := OutDir + outKey;
        match w.write
        case Fails(msg) =>
          Run(Response(500, "Error: " + Describe(Raised(msg))), [fetch, Recognize(path), WriteFile(outPath, name.value)])
        case Done =>
          Run(Response(200, "Recognized face: " + name.value),
              [fetch, Recognize(path), WriteFile(outPath, name.value), Upload(outPath, OutputBucket, outKey)])
  }

  /** The upload's outcome never changes the response or the effects:
      `upload_file_to_s3` swallows its exceptions. */
  lemma UploadFailureIgnored<E>(event: Json, w: World<E>, u: Attempt)
    ensures Handler(event, w.(upload := u)) == Handler(event, w)
  {
  }

  /** A `bucket_name` entry in the event, whatever its value, changes nothing. */
  lemma BucketNameIgnored<E>(fields: map<string, Json>, b: Json, w: World<E>)
    requires "bucket_name" !in fields
    ensures Handler(Object(fields["bucket_name" := b]), w) == Handler(Object(fields), w)
  {
    assert Field(Object(fields["bucket_name" := b]), ImageField) == Field(Object(fields), ImageField);
  }

  /** A recognized empty name is falsy: 400, and nothing is written. */
  lemma EmptyNameIs400<E>(key: string, w: World<E>)
    requires w.download.Done?
    requires RecognizeFace(w.vision).name == Some("")
    ensures HandleKey(key, w)
            == Run(Response(400, "No face detected or recognized in " + key + "."),
                   [Download(Stage1Bucket, key, LocalPath(key)), Recognize(LocalPath(key))])
  {
  }

  /** When either detector finds no face, the answer is 400 and neither the
      gallery nor the embedding model was consulted. */
  lemma NoFaceIs400<E>(key: string, w: World<E>)
    requires w.download.Done?
    requires w.vision.detect == Returns(false) || (w.vision.detect == Returns(true) && w.vision.crop == Returns(false))
    ensures HandleKey(key, w).response.statusCode == 400
    ensures LoadGallery !in RecognizeFace(w.vision).steps && Embed !in RecognizeFace(w.vision).steps
  {
  }

  /** An empty gallery makes `min` raise; the recognition function answers
      None, so the handler answers 400. */
  lemma EmptyGalleryIs400<E>(key: string, w: World<E>)
    requires w.download.Done?
    requires ReachesMatch(w.vision) && |w.vision.load.value.embeddings| == 0
    ensures HandleKey(key, w).response.statusCode == 400
  {
  }
}
