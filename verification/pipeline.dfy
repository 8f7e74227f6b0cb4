/** The two stages together: the payload the frame-extraction stage hands
    off, read as the event of the recognition stage. The two handlers each
    hard-code the stage-1 bucket; these lemmas show the hand-off lines up,
    and how the final text key follows from the original video key. */
module Pipeline {
  import opened Wrappers
  import opened Events
  import opened PyText
  import opened Matching
  import FaceRec
  import VideoSplit

  /** The hand-off payload as the recognition function receives it, after
      `json.dumps` and the platform's decoding. */
  function HandOffEvent(p: VideoSplit.Payload): Json
  {
    Object(map["bucket_name" := Str(p.bucketName), "img_file_name" := Str(p.imgFileName)])
  }

  /** The text key is the video key up to its first '.', plus ".txt",
      whatever the video key: splitext removes at most the part from the
      last dot, which never comes before the first one. */
  lemma FinalTextKey(videoKey: string)
    ensures FaceRec.ResultKey(VideoSplit.FrameKey(videoKey)) == FirstField(videoKey, Dot) + ".txt"
  {
    var frame := VideoSplit.FrameKey(videoKey);
    var root := frame[..|frame| - 4];
    var ext := SplitExt(videoKey).1;
    assert root + ext == videoKey;
    assert frame == root + ".jpg";
    var first := FirstField(videoKey, Dot);
    // The first field of the video key ends no later than the root does.
    assert |first| <= |root|;
    assert first <= frame by {
      assert first <= root;
    }
    if |first| < |root| {
      assert videoKey[|first|] == Dot;
      assert frame[|first|] == root[|first|] == videoKey[|first|];
    } else {
      assert frame[|first|] == '.';
    }
    FirstFieldUnique(frame, Dot, first);
  }

  /** When the frame-extraction stage invokes the recognition stage, the
      recognition stage downloads from the bucket and under the key the frame
      was uploaded to, ignoring the payload's bucket field only because the
      two hard-coded buckets coincide. */
  lemma HandOffMatchesUpload<E>(bucket: Json, videoKey: string, w1: VideoSplit.World, w2: FaceRec.World<E>)
    requires w1.download.Done? && w1.ffmpegExit == 0 && w1.upload.Done?
    ensures var frameKey := VideoSplit.FrameKey(videoKey);
            var r1 := VideoSplit.Steps(VideoSplit.Plan(bucket, videoKey, frameKey), frameKey, w1);
            var p := VideoSplit.Payload(VideoSplit.Stage1Bucket, frameKey);
            && VideoSplit.Invoke(VideoSplit.RecognitionFunction, p) in r1.effects
            && VideoSplit.Upload(VideoSplit.TmpDir + frameKey, VideoSplit.Stage1Bucket, frameKey) in r1.effects
            && FaceRec.Handler(HandOffEvent(p), w2) == FaceRec.HandleKey(frameKey, w2)
            && FaceRec.HandleKey(frameKey, w2).effects[0]
               == FaceRec.Download(VideoSplit.Stage1Bucket, frameKey, FaceRec.LocalPath(frameKey))
  {
    var frameKey := VideoSplit.FrameKey(videoKey);
    var r1 := VideoSplit.Steps(VideoSplit.Plan(bucket, videoKey, frameKey), frameKey, w1);
    VideoSplit.InvokeOnlyAfterUpload(bucket, videoKey, frameKey, w1);
    var e :| e in r1.effects && e.Invoke?;
    var i :| 0 <= i < |r1.effects| && r1.effects[i] == e;
    assert r1.effects[2] in r1.effects;
    var p := VideoSplit.Payload(VideoSplit.Stage1Bucket, frameKey);
    assert FaceRec.ImageKey(HandOffEvent(p)) == Some(frameKey);
  }

  /** A video whose frame holds a face, matched against an aligned,
      non-empty gallery of non-empty names, ends in 200 naming a gallery
      entry, with the text object under the video key's first field + ".txt"
      in the output bucket. There is no distance threshold: the nearest entry
      is always named. */
  lemma FaceInVideoIsNamed<E>(videoKey: string, w2: FaceRec.World<E>)
    requires w2.download.Done? && w2.write.Done?
    requires FaceRec.ReachesMatch(w2.vision)
    requires Aligned(w2.vision.load.value) && |w2.vision.load.value.embeddings| > 0
    requires forall k :: 0 <= k < |w2.vision.load.value.names| ==> w2.vision.load.value.names[k] != ""
    ensures var frameKey := VideoSplit.FrameKey(videoKey);
            var r2 := FaceRec.Handler(HandOffEvent(VideoSplit.Payload(VideoSplit.Stage1Bucket, frameKey)), w2);
            var textKey := FirstField(videoKey, Dot) + ".txt";
            && r2.response.statusCode == 200
            && (exists name :: name in w2.vision.load.value.names && r2.response.body == "Recognized face: " + name)
            && r2.effects[3] == FaceRec.Upload(FaceRec.OutDir + textKey, FaceRec.OutputBucket, textKey)
  {
    var frameKey := VideoSplit.FrameKey(videoKey);
    var event := HandOffEvent(VideoSplit.Payload(VideoSplit.Stage1Bucket, frameKey));
    assert FaceRec.ImageKey(event) == Some(frameKey);
    var v := w2.vision;
    AlignedGalleryAlwaysNames(v.embed.value, v.load.value, v.dist);
    var name := FaceRec.RecognizeFace(v).name.value;
    assert name in v.load.value.names;
    assert FaceRec.NameOf(w2) == Some(name);
    FinalTextKey(videoKey);
    var r2 := FaceRec.Handler(event, w2);
    assert r2.effects[2..][1] == r2.effects[3];
  }

  /** An extraction failure in the first stage means the second stage is
      never invoked. */
  lemma ExtractionFailureNeverRecognizes(event: Json, w1: VideoSplit.World)
    requires w1.ffmpegExit != 0
    ensures forall e :: e in VideoSplit.LambdaHandler(event, w1).effects ==> !e.Invoke?
  {
    var r := VideoSplit.LambdaHandler(event, w1);
    if VideoSplit.Source(event).Some? {
      var (bucket, key) := VideoSplit.Source(event).value;
      VideoSplit.InvokeOnlyAfterUpload(bucket, key, VideoSplit.FrameKey(key), w1);
    }
  }
}
