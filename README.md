# Reel upload bot: verified model of one run

The bot keeps a record file (`videos.json`) holding an ordered list of
entries `{url, uploaded}`. Each run of `process_videos` walks the list in
order and skips the uploaded entries. For each pending entry it:

1. asks `yt_dlp` for a direct media URL;
2. streams that URL to `downloads/video_<seconds>.mp4`;
3. publishes the file as an Instagram reel in two Graph API steps (create a
   media container, then publish it). The file is given to the Graph API as
   a public URL under the `/videos/` route of the bot's own file server.

A failed extraction or download moves on to the next pending entry. The
first upload attempt ends the run, whatever its outcome. A successful
upload deletes the local file and marks the entry uploaded in place. The
record is written back only when an entry changed.

The model has five modules:

- `Paths` (paths.dfy): POSIX `join` and `basename`, and the public URL
  built by `upload_to_public_server`.
- `Effects` (effects.dfy): the side effects a run performs, as a log of
  `Effect` values. The downloads directory is the set of paths that log
  leaves behind (`ApplyEffects`).
- `Publisher` (publisher.dfy): `upload_video`.
  - `UploadVideo` is a method over the two Graph API replies.
  - `UploadTrace` is the function that specifies it.
- `Pipeline` (pipeline.dfy): `download_video` and `process_videos`.
  - `ProcessVideos` is a `for` loop over an `array<Entry>` that flips a flag
    in place, with `continue` on failure and `break` after the first upload
    attempt.
  - It is proved against `RunEntries`, which gives the new list, and
    `RunTrace`, which gives the effects performed, including the record
    write.
- `RunProperties` (run_properties.dfy): what a run guarantees, proved
  about `RunEntries` and `RunTrace`.

Everything outside the script is an input. One `Attempt` per entry says
what the outside world answers:

- the extracted URL, or none;
- the clock reading that names the file;
- how the download ends;
- whether each Graph API reply has an `id`.

## Model

| member | source | states |
|---|---|---|
| Paths.RFind | upload.py:66 | the result is -1 or the index of an occurrence of the character, and no occurrence lies after it (the last-separator search behind `basename`) |
| Paths.Basename | upload.py:66 | `os.path.basename`: everything after the last separator; it has no contract of its own, its properties are those of `BasenameIsLastSegment` |
| Paths.BasenameIsLastSegment | upload.py:66 | `basename(p)` is a suffix of `p` that holds no separator, and it is either all of `p` or preceded by a separator |
| Paths.Join | upload.py:53 | `os.path.join(dir, name)` ends in `name`; an absolute `name` replaces `dir`; otherwise the result starts with `dir` and is exactly one character longer than `dir` and `name` together, that character a separator, when `dir` is non-empty and does not end in one, and exactly as long as both otherwise |
| Paths.PublicUrl | upload.py:65-66 | the public URL always starts with the fixed host followed by `/videos/`, so it is never empty |
| Paths.PublicUrlNamesOneSegment | upload.py:65-66 | what follows `/videos/` is the longest suffix of the local path that holds no separator (all of the path, or preceded by a separator), so it is exactly `basename(p)`: a segment with no separator, non-empty for the generated names (`VideoFilenameIsSegment`) |
| Paths.RFindAppend | upload.py:53 | `rfind` over a concatenation is the hit in the second part if there is one, else the hit in the first part |
| Paths.BasenameAfterSep | upload.py:53 | the base name after a component ending in a separator depends only on what follows the separator |
| Paths.BasenameOfJoin | upload.py:53 | `basename(join(dir, name)) == basename(name)` for every `dir` and `name` |
| Paths.PublicUrlOfDownload | upload.py:53 | for a name without a separator, the public URL of `downloads/<name>` is the host, `/videos/`, then exactly that name |
| Effects.Apply | upload.py:57 | what one effect does to the downloads directory: opening a file for writing (upload.py:57) adds its path, `os.remove` (upload.py:103) takes it away, every other effect leaves the directory alone; no contract of its own, see `ApplyEffects` and `UploadDeletesOnlyOnPublish` |
| Effects.ApplyEffects | upload.py:57 | a path that no effect in the log writes or removes is in the directory afterwards exactly when it was there before |
| Effects.ApplyEffectsAppend | upload.py:103 | applying a log in two pieces is the same as applying it at once |
| Publisher.Published | upload.py:86-99 | the reel went live: the create reply and the publish reply both carry an `id` (a predicate, used by the contracts below) |
| Publisher.UploadTrace | upload.py:68-109 | the upload always makes the create request with the public URL. It makes the publish request, with the container `id`, exactly when the create reply has an `id`. It removes the file exactly when both replies have an `id`, and that removal is the third and last effect. There are exactly three effects when the reel is published, so at most one request per step. |
| Publisher.UploadVideo | upload.py:68-109 | the result is true exactly when the create reply and the publish reply both carry an `id`, and the effects are those of `UploadTrace` |
| Publisher.UploadDeletesOnlyOnPublish | upload.py:86-103 | the downloads directory after an upload is the old one minus the file when the reel was published, and unchanged otherwise, including when the create reply lacks an `id` |
| Pipeline.DecimalDigits | upload.py:124 | `str()` of the clock reading in the file name; no contract of its own, see `DecimalDigitsWellFormed` and `DecimalRoundTrip` |
| Pipeline.DecimalDigitsWellFormed | upload.py:124 | `str` of a natural number is a non-empty string of digits without a leading zero |
| Pipeline.DecimalRoundTrip | upload.py:124 | reading the decimal notation back gives the number |
| Pipeline.VideoFilename | upload.py:124 | the name `video_<seconds>.mp4`; no contract of its own, its properties are those of the three lemmas below |
| Pipeline.VideoFilenameIsSegment | upload.py:124 | `video_<seconds>.mp4` is non-empty, relative and free of separators |
| Pipeline.VideoFilenameInjective | upload.py:124 | different clock readings give different file names |
| Pipeline.DownloadPath | upload.py:53 | the local path `downloads/video_<seconds>.mp4`; no contract of its own, see `DownloadUrlNamesFile` and `DownloadVideo` |
| Pipeline.DownloadUrlNamesFile | upload.py:124-130 | the URL given to the Graph API for a download is the host, `/videos/`, then the generated file name: the name under which the file was saved |
| Pipeline.Resolved | upload.py:120 | the extraction gave a URL that is neither `None` nor empty, the two values `not direct_video_url` treats as failure (a predicate) |
| Pipeline.Ready | upload.py:120-128 | the extraction gave a usable URL and the download returned a path, the two guards at upload.py:120 and upload.py:126 (a predicate); see `ProcessEntry` and `EntryStages` |
| Pipeline.DownloadTrace | upload.py:52-63 | a download always makes the GET; it opens (creates) the local file exactly when the request did not fail before the stream began |
| Pipeline.DownloadVideo | upload.py:52-63 | the path is returned exactly when the stream completes, it is `downloads/video_<seconds>.mp4` and never empty, and the effects are those of `DownloadTrace` |
| Pipeline.Candidate | upload.py:116-128 | the entry is pending (upload.py:116) and `Ready` (a predicate); see `FirstCandidate` and `RunFlipsFirstReady` |
| Pipeline.FirstCandidate | upload.py:115-128 | the result is the first index from `from` on whose entry is pending and whose extraction and download both succeed, or none when no such index exists |
| Pipeline.Flipped | upload.py:130-133 | the entry a run flips is pending before the run; `PublishedCandidateFlips` and `UnpublishedRunChangesNothing` state when there is one |
| Pipeline.RunEntries | upload.py:115-133 | after a run, the list has the same length and the same URLs in the same order, and an entry is uploaded exactly when it was before or it is the one that was flipped: no flag is ever cleared |
| Pipeline.EntryTrace | upload.py:116-130 | processing a pending entry starts with the extraction of its URL and never writes the record; which requests follow is `EntryStages` |
| Pipeline.LoopTrace | upload.py:115-135 | the loop itself never writes the record |
| Pipeline.RunTrace | upload.py:111-138 | the effects of a run: the loop's, then the record write when an entry was flipped; its properties are those of `SavedIffChanged`, `RunIdleIffAllUploaded` and `RunExtractsPending` |
| Pipeline.ProcessEntry | upload.py:116-130 | the loop body reaches the upload exactly when extraction gives a non-empty URL and the download completes; it succeeds exactly when in addition the reel is published |
| Pipeline.ContinueAfter | upload.py:119-128 | after a pending entry that does not reach upload, the loop goes on with the next entry |
| Pipeline.ProcessVideos | upload.py:111-138 | the array afterwards is `RunEntries` of the array before, and the effects performed are `RunTrace` |
| RunProperties.EntryExtractsOnce | upload.py:116-119 | processing one pending entry hands exactly its URL to the extractor |
| RunProperties.LoopExtractsPending | upload.py:115-135 | the loop extracts exactly the pending entries from its start up to and including the first candidate, in order; a failure does not stop it |
| RunProperties.RunExtractsPending | upload.py:115-135 | a run tries exactly the pending entries up to and including the first one whose extraction and download succeed (all pending entries when there is none), in list order |
| RunProperties.LoopIdleIffAllUploaded | upload.py:115-116 | the loop performs no effect exactly when every entry from its start on is uploaded |
| RunProperties.RunIdleIffAllUploaded | upload.py:113-116 | a run extracts, downloads, uploads and saves nothing exactly when every entry is already uploaded |
| RunProperties.SavedIffChanged | upload.py:137-138 | the record is written back exactly when the run changed an entry |
| RunProperties.RunFlipsFirstReady | upload.py:115-135 | an entry that changes in a run went from pending to uploaded with its URL kept; it was ready and published; every earlier entry was uploaded or failed; and no other entry changed, so at most one flips |
| RunProperties.PublishedCandidateFlips | upload.py:130-138 | when the first candidate's reel is published, that entry is marked uploaded with its URL kept and the record is written back |
| RunProperties.UnpublishedRunChangesNothing | upload.py:130-138 | when there is no candidate, or its upload was not published, every entry is left as it was and the record is not written |
| RunProperties.FailedEntryStaysPending | upload.py:119-128 | a pending entry whose extraction or download fails is still pending after the run |
| RunProperties.CandidateEntryTrace | upload.py:119-130 | the entry that reaches upload performs the extraction, the GET, the file's creation, then the upload's effects |
| RunProperties.EntryStages | upload.py:119-130 | processing an entry makes the GET exactly when the extraction gave a usable URL, reaches the Graph API exactly when the download also completed, and makes the publish request exactly when in addition the create reply carried an `id` |
| RunProperties.StoppedEntryTrace | upload.py:119-128 | an entry that does not reach upload performs exactly the extraction, then, when the extraction gave a usable URL, the GET and, for an interrupted stream, the creation of its own (partial) file; with no usable URL, only the extraction |
| RunProperties.ReadyEntryStages | upload.py:125-130 | for the entry that reaches upload, the GET is the second effect and the create request the fourth, and a publish request is made, as the fifth effect, exactly when the create reply carried an `id` |
| RunProperties.EntryRemovesOnlyUpload | upload.py:99-109 | the only file processing an entry removes is its own download, and only when its reel was published |
| RunProperties.LoopRemovesOnlyUpload | upload.py:115-135 | the only file the loop removes is the first candidate's download, and only when its reel was published |
| RunProperties.RunRemovesOnlyUpload | upload.py:111-138 | a run removes no file but the download of the entry it published |
| RunProperties.UploadedEntryFile | upload.py:99-109 | after processing the entry that reaches upload, its download is present exactly when the reel was not published |
| RunProperties.LoopKeepsUploadUnlessPublished | upload.py:99-109 | whatever the directory held before, the loop leaves the uploaded entry's download in place exactly when its reel was not published |
| RunProperties.RunDeletesUploadOnlyOnPublish | upload.py:99-109 | after a run that reached an upload, the downloaded file is gone exactly when the reel was published; after a failed create or publish step it stays behind |

## Left out

- `get_direct_video_url` (upload.py:42-50) calls `yt_dlp`, a library outside the model. Its answer is an input (`Attempt.direct`), and a raised exception is the `None` answer. `None` and the empty string are both failures, as `not direct_video_url` treats them.
- The HTTP GET, `raise_for_status` and the chunked write of `download_video` (upload.py:55-59) are network and file I/O. They are reduced to three outcomes: completed; rejected before the file was opened; interrupted after it was opened, which leaves a partial file.
- The Graph API POSTs (upload.py:83-84, 97-99) are network I/O. Each reply is reduced to whether it carries an `id`, plus the container `id` itself. The caption, the access token, the media type and the error printouts are not modelled.
- A POST that raises, or a reply that is not JSON, ends the whole process with an exception in the script. The model has no such path.
- `load_videos` and `save_videos` (upload.py:34-40) are JSON file I/O. The record is the in-memory list, and the save is the `SaveRecord` effect. A record without a `videos` key, an entry without `uploaded`, or a pending entry without `url` raises in the script (upload.py:115-117) and is not modelled. An uploaded entry without `url` is skipped by the script without error; the model cannot represent it, since every `Entry` has a `url`.
- The Flask file server and its daemon thread (upload.py:21-31) are concurrency and a web framework. The model keeps only the `/videos/<filename>` route's shape, in `PublicUrl`.
- The `schedule` driver and the repeated runs (upload.py:139-145) are wall-clock timing that never ends. The model covers one run.
- `time.time()` (upload.py:124) is a clock. Its reading in whole seconds is an input (`Attempt.clock`). Two downloads within the same second would share a file name; `VideoFilenameInjective` states when they do not.
- The environment globals (upload.py:9-16) and the creation of the downloads directory (upload.py:19) happen at import time. They are not modelled.
- `os.remove` of a missing file would raise. The model does not treat that case. Instead `RunRemovesOnlyUpload` shows that the only file a run removes is the published entry's download, and `CandidateEntryTrace` shows that the same entry wrote that file earlier in the run.
- Whether the hard-coded host `https://your-render-app.onrender.com` (upload.py:66) actually reaches the Flask server the script starts on port 5000 (upload.py:29) depends on deployment outside the script. The model proves only the URL's text.
- Printing and logging are not modelled.
