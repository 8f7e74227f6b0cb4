/** The frame-extraction stage (video-splitting-lambda/handler.py): read the
    bucket and key of the first record of an S3 event, download the video,
    have ffmpeg extract one frame, upload the frame to the stage-1 bucket,
    invoke the recognition function asynchronously naming the frame,
    remove both local files and answer. S3, ffmpeg, the Lambda client and the
    file system are collaborators whose outcomes are given in a `World`. */
module VideoSplit {
  import opened Wrappers
  import opened Events
  import opened PyText

  const TmpDir: string := "/tmp/"
  const Stage1Bucket: string := "1228911985-stage-1"
  const RecognitionFunction: string := "face-recognition"
  const FrameExtension: string := ".jpg"

  /** The JSON payload handed to the recognition function. */
  datatype Payload = Payload(bucketName: string, imgFileName: string)

  /** The side effects the handler attempts, in order. */
  datatype Effect =
    | Download(source: Json, key: string, path: string)
    | Extract(input: string, output: string)
    | Upload(path: string, bucket: string, key: string)
    | Invoke(target: string, payload: Payload)
    | Remove(path: string)

  /** The collaborators' behaviour for one invocation: the S3 download, the
      exit status of the ffmpeg shell command, the S3 upload, the Lambda
      invoke and the two `os.remove` calls. */
  datatype World = World(
    download: Attempt,
    ffmpegExit: int,
    upload: Attempt,
    invoke: Attempt,
    removeVideo: Attempt,
    removeFrame: Attempt)

  /** A response and the effects attempted on the way to it. */
  datatype Run = Run(response: Response, effects: seq<Effect>)

  /** The event holds a `Records` list whose first record maps "s3", then
      section, then field, each level a dict. */
  predicate HasEntry(event: Json, section: string, field: string)
  {
    && event.Object? && "Records" in event.fields
    && event.fields["Records"].List? && |event.fields["Records"].items| > 0
    && var first := event.fields["Records"].items[0];
    && first.Object? && "s3" in first.fields
    && first.fields["s3"].Object? && section in first.fields["s3"].fields
    && first.fields["s3"].fields[section].Object? && field in first.fields["s3"].fields[section].fields
  }

  /** The entry HasEntry says is there. */
  function EntryAt(event: Json, section: string, field: string): Json
    requires HasEntry(event, section, field)
  {
    event.fields["Records"].items[0].fields["s3"].fields[section].fields[field]
  }

  /** `event['Records'][0]['s3'][section][field]`, raising as Python would:
      the lookup succeeds exactly when every level is there, and yields the
      entry. */
  function RecordEntry(event: Json, section: string, field: string): (r: Result<Json, PyError>)
    ensures r.Success? <==> HasEntry(event, section, field)
    ensures r.Success? ==> r.value == EntryAt(event, section, field)
  {
    var records :- Field(event, "Records");
    var first :- First(records);
    var s3 :- Field(first, "s3");
    var entry :- Field(s3, section);
    Field(entry, field)
  }

  /** The bucket and key the handler reads from the event. Only the first
      record is consulted. */
  function Locate(event: Json): Result<(Json, Json), PyError>
  {
    var bucket :- RecordEntry(event, "bucket", "name");
    var key :- RecordEntry(event, "object", "key");
    Success((bucket, key))
  }

  /** `os.path.splitext(video_key)[0] + ".jpg"`: only the last extension of
      the last path component is replaced, so stripping ".jpg" and putting
      back the video's extension recovers the video key. */
  function FrameKey(videoKey: string): (k: string)
    ensures |k| >= 4 && k[|k| - 4..] == FrameExtension
    ensures k[..|k| - 4] + SplitExt(videoKey).1 == videoKey
    ensures k[..|k| - 4] <= videoKey
  {
    var root := SplitExt(videoKey).0;
    assert (root + FrameExtension)[..|root|] == root;
    root + FrameExtension
  }

  /** A video key whose extension is already ".jpg" is its own frame key:
      ffmpeg is then asked to write the frame over its own input, and both
      Remove effects name the same path. */
  lemma JpegVideoKeepsKey(videoKey: string)
    requires SplitExt(videoKey).1 == FrameExtension
    ensures FrameKey(videoKey) == videoKey
    ensures var plan := Plan(Str(""), videoKey, FrameKey(videoKey));
            plan[1].input == plan[1].output && plan[4] == plan[5]
  {
  }

  /** The six effects of a full run, in the order the handler attempts
      them, for a video key and the frame key derived from it. */
  function Plan(bucket: Json, videoKey: string, frameKey: string): seq<Effect>
  {
    var videoPath := TmpDir + videoKey;
    var framePath := TmpDir + frameKey;
    [ Download(bucket, videoKey, videoPath),
      Extract(videoPath, framePath),
      Upload(framePath, Stage1Bucket, frameKey),
      Invoke(RecognitionFunction, Payload(Stage1Bucket, frameKey)),
      Remove(videoPath),
      Remove(framePath) ]
  }

  /** Whether each of the six planned effects succeeds in this world;
      ffmpeg succeeds exactly when it exits with status 0. */
  function Succeeds(w: World): seq<bool>
  {
    [ w.download.Done?, w.ffmpegExit == 0, w.upload.Done?,
      w.invoke.Done?, w.removeVideo.Done?, w.removeFrame.Done? ]
  }

  /** How many steps are attempted: up to and including the first that
      fails, or all of them. */
  function Attempted(ok: seq<bool>): (n: nat)
    ensures n <= |ok|
    ensures forall k :: 0 <= k < n - 1 ==> ok[k]
    ensures n < |ok| ==> n >= 1 && !ok[n - 1]
  {
    if |ok| == 0 then 0
    else if !ok[0] then 1
    else 1 + Attempted(ok[1..])
  }

  /** The count of attempted steps is fixed by its contract: every step
      before the last attempted one succeeded, and the last attempted one
      failed unless it is the final step. */
  lemma AttemptedUnique(ok: seq<bool>, n: nat)
    requires 1 <= n <= |ok|
    requires forall k :: 0 <= k < n - 1 ==> ok[k]
    requires n < |ok| ==> !ok[n - 1]
    ensures Attempted(ok) == n
  {
  }

  /** The answer when a step raises something other than ffmpeg's failure. */
  function Unexpected(message: string): Response
  {
    Response(500, "Unexpected error: " + message)
  }

  /** `lambda_handler(event, context)` of the frame-extraction stage. A
      malformed event answers 500 "Unexpected error: ..." before any effect.
      Otherwise the steps run download, extract, upload, invoke, remove the
      video, remove the frame; the first that fails ends the run. A non-zero
      ffmpeg status answers 500 "Error during frame extraction."; any other
      failure answers 500 "Unexpected error: <message>"; when every step
      succeeds the answer is 200 naming the uploaded frame. */
  function LambdaHandler(event: Json, w: World): (r: Run)
    ensures Locate(event).Failure? ==>
              r == Run(Unexpected(Describe(Locate(event).error)), [])
    ensures Source(event).None? ==> r.effects == [] && r.response.statusCode == 500
    ensures r.response.statusCode in {200, 500}
    ensures r.response.statusCode == 200 ==> Source(event).Some?
    ensures Source(event).Some? ==>
              var (bucket, key) := Source(event).value;
              r == Steps(Plan(bucket, key, FrameKey(key)), FrameKey(key), w)
    ensures Locate(event).Success? && !Locate(event).value.1.Str? ==>
              r == Run(Unexpected("expected str, bytes or os.PathLike object, not "
                                  + TypeName(Locate(event).value.1)), [])
  {
    match Locate(event)
    case Failure(e) => Run(Unexpected(Describe(e)), [])
    case Success(located) =>
      var (bucket, keyValue) := located;
      if !keyValue.Str? then
        Run(Unexpected("expected str, bytes or os.PathLike object, not " + TypeName(keyValue)), [])
      else
        Steps(Plan(bucket, keyValue.s, FrameKey(keyValue.s)), FrameKey(keyValue.s), w)
  }

  /** The straight-line body of the handler once the key is known, over the
      planned effects and the frame key: each step runs only if every earlier
      one succeeded. */
  function Steps(plan: seq<Effect>, frameKey: string, w: World): (r: Run)
    requires |plan| == 6
    ensures r.effects == plan[..Attempted(Succeeds(w))]
    ensures r.response.statusCode in {200, 500}
    ensures r.response.statusCode == 200 <==> forall k :: 0 <= k < 6 ==> Succeeds(w)[k]
    ensures w.download.Fails? ==> r.response == Unexpected(w.download.message)
    ensures w.download.Done? && w.ffmpegExit != 0 ==> r.response == Response(500, "Error during frame extraction.")
    ensures w.download.Done? && w.ffmpegExit == 0 && w.upload.Fails? ==>
              r.response == Unexpected(w.upload.message)
    ensures w.download.Done? && w.ffmpegExit == 0 && w.upload.Done? && w.invoke.Fails? ==>
              r.response == Unexpected(w.invoke.message)
    ensures w.download.Done? && w.ffmpegExit == 0 && w.upload.Done? && w.invoke.Done?
            && w.removeVideo.Fails? ==>
              r.response == Unexpected(w.removeVideo.message)
    ensures w.download.Done? && w.ffmpegExit == 0 && w.upload.Done? && w.invoke.Done?
            && w.removeVideo.Done? && w.removeFrame.Fails? ==>
              r.response == Unexpected(w.removeFrame.message)
    ensures r.response.statusCode == 200 ==>
              r.response.body == "Frame extracted and uploaded to " + Stage1Bucket + "/" + frameKey
  {
    var ok := Succeeds(w);
    if w.download.Fails? then
      AttemptedUnique(ok, 1);
      Run(Unexpected(w.download.message), plan[..1])
    else if w.ffmpegExit != 0 then
      AttemptedUnique(ok, 2);
      Run(Response(500, "Error during frame extraction."), plan[..2])
    else if w.upload.Fails? then
      AttemptedUnique(ok, 3);
      Run(Unexpected(w.upload.message), plan[..3])
    else if w.invoke.Fails? then
      AttemptedUnique(ok, 4);
      Run(Unexpected(w.invoke.message), plan[..4])
    else if w.removeVideo.Fails? then
      AttemptedUnique(ok, 5);
      Run(Unexpected(w.removeVideo.message), plan[..5])
    else if w.removeFrame.Fails? then
      AttemptedUnique(ok, 6);
      assert !ok[5];
      Run(Unexpected(w.removeFrame.message), plan[..6])
    else
      AttemptedUnique(ok, 6);
      Run(Response(200, "Frame extracted and uploaded to " + Stage1Bucket + "/" + frameKey), plan)
  }

  /** The bucket and the str key of a well-formed event. */
  function Source(event: Json): Option<(Json, string)>
  {
    match Locate(event)
    case Success((bucket, Str(key))) => Some((bucket, key))
    case _ => None
  }

  /** The recognition function is invoked exactly when the download, the
      extraction and the upload all succeeded, so never after an extraction
      failure. The invocation carries the stage-1 bucket and the frame key,
      right after the frame was uploaded under that bucket and key. */
  lemma InvokeOnlyAfterUpload(bucket: Json, key: string, frameKey: string, w: World)
    ensures var r := Steps(Plan(bucket, key, frameKey), frameKey, w);
            (exists e :: e in r.effects && e.Invoke?) <==>
              w.download.Done? && w.ffmpegExit == 0 && w.upload.Done?
    ensures var r := Steps(Plan(bucket, key, frameKey), frameKey, w);
            forall i :: 0 <= i < |r.effects| && r.effects[i].Invoke? ==>
              && i == 3
              && r.effects[i] == Invoke(RecognitionFunction, Payload(Stage1Bucket, frameKey))
              && r.effects[2] == Upload(TmpDir + frameKey, Stage1Bucket, frameKey)
  {
    var plan := Plan(bucket, key, frameKey);
    var ok := Succeeds(w);
    var n := Attempted(ok);
    AttemptedAtLeast(ok, 3);
    assert ok[..3] == [w.download.Done?, w.ffmpegExit == 0, w.upload.Done?];
    InvokeAtThree(plan, n, bucket, key, frameKey);
  }

  /** In a prefix of the plan, an invocation appears exactly when the
      prefix reaches index 3, and only there. */
  lemma InvokeAtThree(plan: seq<Effect>, n: nat, bucket: Json, key: string, frameKey: string)
    requires plan == Plan(bucket, key, frameKey) && n <= 6
    ensures (exists e :: e in plan[..n] && e.Invoke?) <==> n > 3
    ensures forall i :: 0 <= i < n && plan[i].Invoke? ==> i == 3
  {
    if n > 3 {
      assert plan[..n][3] == plan[3];
    }
  }

  /** More than m steps are attempted exactly when the first m succeed. */
  lemma {:induction false} AttemptedAtLeast(ok: seq<bool>, m: nat)
    requires m <= |ok|
    ensures Attempted(ok) > m <==> (forall k :: 0 <= k < m ==> ok[k]) && m < |ok|
  {
    if m > 0 && ok[0] {
      AttemptedAtLeast(ok[1..], m - 1);
      assert forall k :: 0 <= k < m - 1 ==> ok[1..][k] == ok[k + 1];
    }
  }

  /** A non-zero ffmpeg status answers 500 with the fixed extraction message,
      after attempting only the download and the extraction. */
  lemma ExtractionFailureStops(bucket: Json, key: string, frameKey: string, w: World)
    requires w.download.Done? && w.ffmpegExit != 0
    ensures var r := Steps(Plan(bucket, key, frameKey), frameKey, w);
            && r.response == Response(500, "Error during frame extraction.")
            && r.effects == [Download(bucket, key, TmpDir + key), Extract(TmpDir + key, TmpDir + frameKey)]
  {
    AttemptedUnique(Succeeds(w), 2);
  }

  /** Both Remove effects are attempted and succeed exactly on the path
      that answers 200. */
  lemma CleanupOnlyOnSuccess(bucket: Json, key: string, frameKey: string, w: World)
    ensures var r := Steps(Plan(bucket, key, frameKey), frameKey, w);
            r.response.statusCode == 200 <==>
              && Remove(TmpDir + key) in r.effects && w.removeVideo.Done?
              && Remove(TmpDir + frameKey) in r.effects && w.removeFrame.Done?
  {
    var r := Steps(Plan(bucket, key, frameKey), frameKey, w);
    var plan := Plan(bucket, key, frameKey);
    var ok := Succeeds(w);
    var n := Attempted(ok);
    if r.response.statusCode == 200 {
      AttemptedUnique(ok, 6);
      assert r.effects[4] == Remove(TmpDir + key);
      assert r.effects[5] == Remove(TmpDir + frameKey);
    } else if Remove(TmpDir + frameKey) in r.effects {
      AttemptedAtLeast(ok, 5);
    }
  }

  /** Records after the first are never looked at. */
  lemma OnlyFirstRecord(fields: map<string, Json>, first: Json, rest: seq<Json>, w: World)
    ensures LambdaHandler(Object(fields["Records" := List([first] + rest)]), w)
            == LambdaHandler(Object(fields["Records" := List([first])]), w)
  {
    assert First(List([first] + rest)) == First(List([first]));
    assert Locate(Object(fields["Records" := List([first] + rest)]))
           == Locate(Object(fields["Records" := List([first])]));
  }

  /** An event without a `Records` entry answers 500 with the KeyError's
      text, before any effect. */
  lemma MissingRecordsIs500(fields: map<string, Json>, w: World)
    requires "Records" !in fields
    ensures LambdaHandler(Object(fields), w) == Run(Unexpected("'Records'"), [])
  {
    assert Locate(Object(fields)) == Failure(KeyError(QuoteKey("Records")));
  }

  /** An event with an empty record list answers 500 with the IndexError's
      text, before any effect. */
  lemma EmptyRecordsIs500(fields: map<string, Json>, w: World)
    ensures LambdaHandler(Object(fields["Records" := List([])]), w)
            == Run(Unexpected("list index out of range"), [])
  {
    assert Locate(Object(fields["Records" := List([])])) == Failure(IndexError("list index out of range"));
  }
}
