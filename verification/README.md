# Two-stage face-recognition pipeline, modelled in Dafny

The pipeline has two AWS Lambda handlers.

- The frame-extraction stage (`video-splitting-lambda/handler.py`) reacts to an S3 event for an uploaded video. It:
  - downloads the video to `/tmp`;
  - has ffmpeg extract one frame;
  - uploads the frame to the stage-1 bucket;
  - asynchronously invokes the `face-recognition` function with `{bucket_name, img_file_name}`;
  - removes both local files;
  - answers `{statusCode, body}`.
- The recognition stage (`face-recognition-lambda/face-rec.py`) receives that payload. It:
  - downloads the frame from the fixed stage-1 bucket;
  - detects a face with MTCNN;
  - embeds it with a ResNet;
  - picks the gallery name whose embedding is nearest;
  - writes the name to `/tmp/<key up to its first '.'>.txt`;
  - uploads that file to the output bucket.

The model is functional. The collaborators are not run; what they do is given as data in a `World` record:
- S3 downloads and uploads, the Lambda invoke and `os.remove`: each is `Done` or `Fails(message)`.
- ffmpeg: its exit status.
- The vision calls: each returns a value or raises.
- `torch.dist`: a distance function.

Each handler is a pure function of the decoded JSON event and that world. It returns the response record and the list of side effects it attempted, in order.

Modules:

- `Wrappers`: `Option` and `Result`.
- `PyText`: the parts of Python's standard library that the handlers use to derive keys and paths. These are `str.split`, `os.path.splitext` and `os.path.join` on POSIX. `find` and `rfind` on one character are the helpers they are built from, and `str.join` is the inverse of split.
- `Events`: the decoded JSON event, the exceptions that indexing it raises together with their `str()` text, and the response record.
- `Matching`: `distances.index(min(distances))` and the name lookup.
- `FaceRec`: the recognition stage.
- `VideoSplit`: the frame-extraction stage.
- `Pipeline`: the two stages composed through the hand-off payload.

## Model

| member | source | states |
|---|---|---|
| PyText.Split | face-recognition-lambda/face-rec.py:100 | `str.split` with one separator returns at least one part, and a one-part result is the whole string |
| PyText.SplitWithoutSeparator | face-recognition-lambda/face-rec.py:100 | a string without the separator splits into exactly itself |
| PyText.SplitPartsFree | face-recognition-lambda/face-rec.py:100 | no part of a split contains the separator |
| PyText.JoinSplit | face-recognition-lambda/face-rec.py:100 | joining the parts of a split with the separator gives back the original string |
| PyText.SplitJoin | face-recognition-lambda/face-rec.py:100 | splitting the join of separator-free parts (at least one) gives back exactly those parts |
| PyText.FirstField | face-recognition-lambda/face-rec.py:100 | `s.split(".")[0]` is a prefix of s with no '.', ending at the end of s or at its first '.' |
| PyText.FirstFieldUnique | face-recognition-lambda/face-rec.py:100 | those three facts determine `split(".")[0]` uniquely |
| PyText.SplitExt | video-splitting-lambda/handler.py:23 | `os.path.splitext`: root + extension is the path; an extension is split off exactly when the last '.' follows the last '/' with a non-dot before it; the extension is one '.' followed by neither '.' nor '/' |
| PyText.SplitExtCondition | video-splitting-lambda/handler.py:23 | splitext splits off an extension exactly when the final path component has a non-dot character before a dot; leading dots of a hidden name do not count |
| PyText.SplitExtOfStem | video-splitting-lambda/handler.py:23 | appending "." + e (e free of '.' and '/') to a path whose last component is not all dots is undone by splitext, which returns (path, "." + e) |
| PyText.JoinPath | face-recognition-lambda/face-rec.py:81 | `os.path.join(a, b)` ends in b; an absolute b discards a; a relative b after an a ending in '/' is plain concatenation |
| Events.Field | face-recognition-lambda/face-rec.py:80 | `v[k]` succeeds exactly on a dict holding k, yielding its entry; a dict without k raises KeyError whose text is the key's repr |
| Events.First | video-splitting-lambda/handler.py:18 | `v[0]` yields the first item of a non-empty list and raises IndexError "list index out of range" on an empty one; a dict or a number always raises |
| Matching.Min | face-recognition-lambda/face-rec.py:71 | `min` of a non-empty list is one of its members and no larger than any |
| Matching.IndexOf | face-recognition-lambda/face-rec.py:71 | `list.index(x)` fails exactly when x is absent; otherwise it is the first position holding x |
| Matching.NearestIndex | face-recognition-lambda/face-rec.py:71 | `distances.index(min(distances))` fails exactly on an empty list; otherwise it returns i if and only if i is the first index of the least distance (no distance smaller, every earlier one strictly larger) |
| Matching.Distances | face-recognition-lambda/face-rec.py:68 | one distance per gallery embedding, in gallery order, each the distance from the query to that embedding |
| Matching.MatchName | face-recognition-lambda/face-rec.py:68-72 | an empty gallery gives None; otherwise the result is the name at the first nearest index, or None when the name list is too short for that index |
| Matching.AlignedGalleryAlwaysNames | face-recognition-lambda/face-rec.py:63-72 | with one name per embedding and a non-empty gallery, some gallery name is always returned, with no distance threshold |
| Matching.TieGoesToLowerIndex | face-recognition-lambda/face-rec.py:71 | of two indices at the same least distance, the chosen index is no later than the earlier one |
| Matching.ExactEmbeddingIsMatched | face-recognition-lambda/face-rec.py:68-72 | with a distance that is nonnegative and zero only on equal arguments, a query equal to exactly one gallery embedding gets that entry's name |
| FaceRec.RecognizeFace | face-recognition-lambda/face-rec.py:43-75 | vision steps run as a prefix of detect, crop, load, embed, compare. The gallery is loaded only if both detectors report a face. A name comes back exactly when every step succeeds and the match finds one, and it is the match's name. Otherwise the result is None |
| FaceRec.LocalPath | face-recognition-lambda/face-rec.py:81 | the local path is /tmp/ + key, except that an absolute key replaces /tmp/ |
| FaceRec.ResultKey | face-recognition-lambda/face-rec.py:100 | the result key is a '.'-free prefix of the key, ending at the key's end or its first '.', followed by ".txt" |
| FaceRec.Handler | face-recognition-lambda/face-rec.py:77-116 | an event without a str `img_file_name` answers 500 with no effect: a lookup that raises (a missing entry gives "Error: 'img_file_name'", a non-dict event the TypeError of subscripting it) answers "Error: <str(e)>", and a non-str entry answers "Error: " + the TypeError of `os.path.join` naming its type; a str key continues as HandleKey |
| FaceRec.HandleKey | face-recognition-lambda/face-rec.py:81-116 | the first effect is a download from the fixed stage-1 bucket. A failed download answers 500 naming the key and bucket, and recognition never runs. Recognition runs exactly when the download succeeded. The answer is 400 exactly when the name is falsy, with "No face detected or recognized in <key>." after only the download and recognition. A write of exactly the name to /tmp/<result key> is attempted exactly when the name is truthy; if it fails, the answer is 500 "Error: <message>" after three effects. The answer is 200 exactly when the write succeeds, with "Recognized face: name" and an upload to the output bucket under the result key. No other answer uploads anything |
| FaceRec.UploadFailureIgnored | face-recognition-lambda/face-rec.py:36-41 | the upload's outcome never changes the response or the effects |
| FaceRec.BucketNameIgnored | face-recognition-lambda/face-rec.py:80-84 | adding a `bucket_name` entry to the event, whatever its value, changes nothing |
| FaceRec.EmptyNameIs400 | face-recognition-lambda/face-rec.py:92-97 | an empty recognized name answers 400 with only the download and recognition attempted, so nothing is written or uploaded |
| FaceRec.NoFaceIs400 | face-recognition-lambda/face-rec.py:49-59 | when either detector finds no face, the answer is 400 and neither the gallery nor the embedding was consulted |
| FaceRec.EmptyGalleryIs400 | face-recognition-lambda/face-rec.py:68-75 | an empty gallery makes `min` raise, which is caught, so the handler answers 400 |
| VideoSplit.RecordEntry | video-splitting-lambda/handler.py:18-19 | `event['Records'][0]['s3'][section][field]` succeeds exactly when every level is present as a dict (the records as a non-empty list), and then yields that entry |
| VideoSplit.FrameKey | video-splitting-lambda/handler.py:23-26 | the frame key is the splitext root + ".jpg"; stripping ".jpg" and putting back the video's extension recovers the video key |
| VideoSplit.JpegVideoKeepsKey | video-splitting-lambda/handler.py:22-26 | a video key whose extension is already ".jpg" gets itself as frame key, so the extraction's input and output paths coincide |
| VideoSplit.Attempted | video-splitting-lambda/handler.py:29-54 | the steps attempted run up to and including the first failing one: every earlier step succeeded, and the last one failed unless it was the final step |
| VideoSplit.AttemptedUnique | video-splitting-lambda/handler.py:29-54 | that description fixes the number of attempted steps |
| VideoSplit.LambdaHandler | video-splitting-lambda/handler.py:15-72 | a malformed event answers 500 "Unexpected error: <str(e)>" with no effect. A key that is not a str answers the TypeError of `os.path.splitext`. The answer is always 200 or 500, and 200 needs a well-formed event. A well-formed event runs Steps over the planned effects for its bucket, key and frame key |
| VideoSplit.Steps | video-splitting-lambda/handler.py:28-72 | the effects are the plan cut just after the first failing step. The answer is 200 exactly when all six steps succeed, with "Frame extracted and uploaded to 1228911985-stage-1/<frame key>". A non-zero ffmpeg status answers 500 "Error during frame extraction." A failed download, upload, invoke or removal answers 500 "Unexpected error: <its message>" |
| VideoSplit.InvokeOnlyAfterUpload | video-splitting-lambda/handler.py:29-50 | an invoke is issued exactly when download, extraction and upload succeeded. It is the fourth effect, carries the stage-1 bucket and the frame key, and follows the upload of that frame under that bucket and key |
| VideoSplit.ExtractionFailureStops | video-splitting-lambda/handler.py:61-66 | a non-zero ffmpeg status answers 500 "Error during frame extraction." after only the download and the extraction |
| VideoSplit.CleanupOnlyOnSuccess | video-splitting-lambda/handler.py:53-59 | both Remove effects are attempted and succeed if and only if the answer is 200 |
| VideoSplit.OnlyFirstRecord | video-splitting-lambda/handler.py:18-19 | records after the first never change the outcome |
| VideoSplit.MissingRecordsIs500 | video-splitting-lambda/handler.py:67-72 | an event without `Records` answers 500 "Unexpected error: 'Records'" before any effect |
| VideoSplit.EmptyRecordsIs500 | video-splitting-lambda/handler.py:67-72 | an empty `Records` list answers 500 "Unexpected error: list index out of range" before any effect |
| Pipeline.FinalTextKey | video-splitting-lambda/handler.py:23-26 | for every video key, the text key the second stage derives from the frame key is the video key up to its first '.' + ".txt" |
| Pipeline.HandOffMatchesUpload | video-splitting-lambda/handler.py:35-50 | once the frame is uploaded, the invoke's payload makes the recognition stage download from exactly the bucket and key the frame was uploaded to |
| Pipeline.FaceInVideoIsNamed | face-recognition-lambda/face-rec.py:77-110 | a handed-off frame with a face, matched against an aligned non-empty gallery of non-empty names, answers 200 "Recognized face: name" for a name in the gallery, and uploads it under the video key's first field + ".txt" |
| Pipeline.ExtractionFailureNeverRecognizes | video-splitting-lambda/handler.py:31-50 | a non-zero ffmpeg status means the recognition function is never invoked |

## Left out

- S3, the Lambda client, ffmpeg and `os.remove` are not modelled. Each is reduced to its outcome: `Done`, `Fails(message)` or an exit status. The text of a collaborator's exception is taken as given.
- The ffmpeg command line (`-vframes 1 -vf scale=640:480`) and its shell quoting are not modelled. Only the input and output paths of the extraction are recorded.
- Image decoding (cv2, PIL), MTCNN, the ResNet and `torch.load` of `./data.pt` are not modelled. Each is an outcome that returns a value or raises. The `cvtColor` step is folded into the face crop.
- Distances are reals, not floats, so NaN distances are not modelled. A shape mismatch that makes `torch.dist` raise is not modelled either.
- Gallery names are strings; a non-str name, which would make `f.write` raise, is not modelled.
- Logging and `print` output are not modelled.
- Only the invoke request is recorded. The asynchronous ("Event") invocation semantics are not modelled.
- Module-level initialisation of the clients and models is not modelled.
- Python's repr of a key containing a quote or backslash is not reproduced; `QuoteKey` just wraps the key in single quotes.
- TypeError messages follow the CPython 3.12 wording.
- Events.First: `v[0]` on a dict gives KeyError "0", as for a JSON-decoded dict, which has only str keys.
- `/tmp` is treated as a plain prefix. File-system state is not modelled: a `/` inside a result key can make opening the file fail, and that is the `write` outcome.
- The recognition stage never removes its local files, and the model has no cleanup step for it.
- The recognition stage downloads from the fixed stage-1 bucket and ignores the payload's `bucket_name` (`FaceRec.BucketNameIgnored`).
- In the recognition stage a failed upload is swallowed and the answer stays 200 (`FaceRec.UploadFailureIgnored`).
- The recognition stage loads the gallery before it embeds the face.
- The result key is cut at the key's first '.', not at the last extension of its last component (`Pipeline.FinalTextKey`).
