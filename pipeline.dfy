/** `process_videos`: one run of the bot. It walks the recorded entries in
    order, skips the uploaded ones, and for each pending entry extracts a
    direct media URL, downloads it and uploads it. An extraction or
    download failure moves on to the next pending entry; the first upload
    attempt ends the run whatever its outcome. The entry is marked uploaded
    in place when the upload succeeded, and the record is written back only
    then. */
module Pipeline {
  import opened Paths
  import opened Effects
  import opened Publisher

  /** One element of the `videos` list of the record file. */
  datatype Entry = Entry(url: string, uploaded: bool)

  /** How the streaming download of one entry ends. */
  datatype FetchOutcome =
    | Completed    // every chunk was written; the local path is returned
    | Rejected     // the GET failed or answered with an error status before the file was opened
    | Interrupted  // the stream failed after the file was opened: a partial file stays behind

  /** What the outside world answers when the run reaches one entry: the
      extracted direct URL (if any), the clock reading in whole seconds that
      names the local file, how the download ends, and the Graph API
      replies. */
  datatype Attempt = Attempt(direct: Option<string>, clock: nat, fetch: FetchOutcome, replies: Replies)

  /** Decimal notation of a natural number, as `str` writes it. */
  function DecimalDigits(n: nat): string
    decreases n
  {
    if n < 10 then [(n + '0' as int) as char]
    else DecimalDigits(n / 10) + [(n % 10 + '0' as int) as char]
  }

  /** Decimal notation is a non-empty string of digits without a leading
      zero (apart from "0" itself). */
  lemma {:induction false} DecimalDigitsWellFormed(n: nat)
    ensures var s := DecimalDigits(n);
      s != [] && (|s| > 1 ==> s[0] != '0') && forall i :: 0 <= i < |s| ==> '0' <= s[i] <= '9'
    decreases n
  {
    if n >= 10 {
      DecimalDigitsWellFormed(n / 10);
    }
  }

  /** The number a string of decimal digits denotes. */
  function DecimalValue(s: string): nat
    requires forall i :: 0 <= i < |s| ==> '0' <= s[i] <= '9'
    decreases |s|
  {
    if s == [] then 0
    else 10 * DecimalValue(s[..|s| - 1]) + (s[|s| - 1] as int - '0' as int)
  }

  /** Reading back the decimal notation gives the number. */
  lemma {:induction false} DecimalRoundTrip(n: nat)
    ensures var s := DecimalDigits(n);
      (forall i :: 0 <= i < |s| ==> '0' <= s[i] <= '9') && DecimalValue(s) == n
    decreases n
  {
    DecimalDigitsWellFormed(n);
    var s := DecimalDigits(n);
    if n >= 10 {
      DecimalRoundTrip(n / 10);
      assert s[..|s| - 1] == DecimalDigits(n / 10);
    }
  }

  /** The local file name chosen for a download: `video_<seconds>.mp4`. */
  function VideoFilename(clock: nat): string
  {
    "video_" + DecimalDigits(clock) + ".mp4"
  }

  /** A generated file name is a single, relative path segment. */
  lemma VideoFilenameIsSegment(clock: nat)
    ensures var name := VideoFilename(clock);
      name != [] && name[0] != Sep && Sep !in name
  {
    var digits := DecimalDigits(clock);
    DecimalDigitsWellFormed(clock);
    var name := VideoFilename(clock);
    assert forall i :: 6 <= i < 6 + |digits| ==> name[i] == digits[i - 6];
  }

  /** Different clock readings give different file names, so a download only
      overwrites an earlier one when both happen within the same second. */
  lemma VideoFilenameInjective(a: nat, b: nat)
    requires VideoFilename(a) == VideoFilename(b)
    ensures a == b
  {
    var da, db := DecimalDigits(a), DecimalDigits(b);
    var na, nb := VideoFilename(a), VideoFilename(b);
    assert |da| == |db|;
    assert da == na[6..6 + |da|];
    assert db == nb[6..6 + |db|];
    DecimalRoundTrip(a);
    DecimalRoundTrip(b);
  }

  /** The path a download is written to: `downloads/video_<seconds>.mp4`. */
  function DownloadPath(a: Attempt): string
  {
    Join(DownloadFolder, VideoFilename(a.clock))
  }

  /** The public URL the Graph API is given for an entry's download names
      that very file: the host, `/videos/`, then the generated file name. */
  lemma DownloadUrlNamesFile(a: Attempt)
    ensures PublicUrl(DownloadPath(a)) == UrlPrefix + VideoFilename(a.clock)
  {
    VideoFilenameIsSegment(a.clock);
    PublicUrlOfDownload(VideoFilename(a.clock));
  }

  /** The extraction gave a usable URL: not None and not the empty string,
      both of which the script treats as failure. */
  predicate Resolved(a: Attempt)
  {
    a.direct.Some? && a.direct.value != ""
  }

  /** Extraction and download both succeeded, so the entry reaches upload. */
  predicate Ready(a: Attempt)
  {
    Resolved(a) && a.fetch == Completed
  }

  /** The effects of download_video: the GET, and the opening of the local
      file unless the request failed before it. */
  function DownloadTrace(a: Attempt): (log: seq<Effect>)
    requires Resolved(a)
    ensures log != [] && log[0] == Fetch(a.direct.value, DownloadPath(a))
    ensures WriteFile(DownloadPath(a)) in log <==> a.fetch != Rejected
  {
    var path := DownloadPath(a);
    if a.fetch == Rejected then [Fetch(a.direct.value, path)]
    else [Fetch(a.direct.value, path), WriteFile(path)]
  }

  /** download_video: stream the media to `downloads/<name>` and return the
      path, or None when the request or the stream failed. */
  method DownloadVideo(a: Attempt) returns (filepath: Option<string>, log: seq<Effect>)
    requires Resolved(a)
    ensures filepath.Some? <==> a.fetch == Completed
    ensures filepath.Some? ==> filepath.value == DownloadPath(a) && filepath.value != []
    ensures log == DownloadTrace(a)
  {
    var path := Join(DownloadFolder, VideoFilename(a.clock));
    log := [Fetch(a.direct.value, path)];
    if a.fetch == Rejected {
      return None, log;
    }
    log := log + [WriteFile(path)];
    if a.fetch == Interrupted {
      return None, log;
    }
    filepath := Some(path);
  }

  /** Entry `i` is where a run uploads if the run gets there: it is pending
      and its extraction and download succeed. */
  predicate Candidate(videos: seq<Entry>, world: seq<Attempt>, i: int)
    requires |world| == |videos| && 0 <= i < |videos|
  {
    !videos[i].uploaded && Ready(world[i])
  }

  /** The first candidate at or after `from`, in list order. */
  function FirstCandidate(videos: seq<Entry>, world: seq<Attempt>, from: nat): (r: Option<nat>)
    requires |world| == |videos| && from <= |videos|
    ensures r.Some? ==> from <= r.value < |videos| && Candidate(videos, world, r.value)
    ensures r.Some? ==> forall j :: from <= j < r.value ==> !Candidate(videos, world, j)
    ensures r.None? ==> forall j :: from <= j < |videos| ==> !Candidate(videos, world, j)
    decreases |videos| - from
  {
    if from == |videos| then None
    else if Candidate(videos, world, from) then Some(from)
    else FirstCandidate(videos, world, from + 1)
  }

  /** The entry whose flag a run flips: the first candidate, provided its
      upload was published. */
  function Flipped(videos: seq<Entry>, world: seq<Attempt>): (r: Option<nat>)
    requires |world| == |videos|
    ensures r.Some? ==> r.value < |videos| && !videos[r.value].uploaded
  {
    match FirstCandidate(videos, world, 0)
    case Some(k) => if Published(world[k].replies) then Some(k) else None
    case None => None
  }

  /** The entries after a run. Every URL and the order are kept, no flag is
      cleared, and a flag is set only on the entry that was published. */
  function RunEntries(videos: seq<Entry>, world: seq<Attempt>): (after: seq<Entry>)
    requires |world| == |videos|
    ensures |after| == |videos|
    ensures forall i :: 0 <= i < |videos| ==> after[i].url == videos[i].url
    ensures forall i :: 0 <= i < |videos| ==>
              (after[i].uploaded <==> videos[i].uploaded || Flipped(videos, world) == Some(i))
  {
    match Flipped(videos, world)
    case Some(k) => videos[k := videos[k].(uploaded := true)]
    case None => videos
  }

  /** The effects of processing one pending entry, up to and including its
      upload when it reaches one. Processing an entry never writes the
      record. */
  function EntryTrace(e: Entry, a: Attempt): (log: seq<Effect>)
    ensures log != [] && log[0] == Extract(e.url)
    ensures SaveRecord !in log
  {
    if !Resolved(a) then [Extract(e.url)]
    else if a.fetch != Completed then [Extract(e.url)] + DownloadTrace(a)
    else [Extract(e.url)] + DownloadTrace(a) + UploadTrace(DownloadPath(a), a.replies)
  }

  /** The effects of the loop from entry `from` on: uploaded entries are
      skipped, a failing entry is followed by the next one, and the first
      entry that reaches upload is the last one processed. The loop never
      writes the record itself. */
  function LoopTrace(videos: seq<Entry>, world: seq<Attempt>, from: nat): (log: seq<Effect>)
    requires |world| == |videos| && from <= |videos|
    ensures SaveRecord !in log
    decreases |videos| - from
  {
    if from == |videos| then []
    else if videos[from].uploaded then LoopTrace(videos, world, from + 1)
    else if Candidate(videos, world, from) then EntryTrace(videos[from], world[from])
    else EntryTrace(videos[from], world[from]) + LoopTrace(videos, world, from + 1)
  }

  /** The effects of a whole run: the loop, then the record write when an
      entry was flipped. */
  function RunTrace(videos: seq<Entry>, world: seq<Attempt>): seq<Effect>
    requires |world| == |videos|
  {
    LoopTrace(videos, world, 0) + if Flipped(videos, world).Some? then [SaveRecord] else []
  }

  /** The loop body for one pending entry: extract, download, upload. It
      reports whether the upload was reached (which ends the loop) and
      whether it succeeded, and returns the entry's effects. */
  method ProcessEntry(video: Entry, attempt: Attempt) returns (reachedUpload: bool, success: bool, log: seq<Effect>)
    ensures reachedUpload <==> Ready(attempt)
    ensures success <==> Ready(attempt) && Published(attempt.replies)
    ensures log == EntryTrace(video, attempt)
  {
    log := [Extract(video.url)];
    var direct := attempt.direct;
    if direct.None? || direct.value == "" {
      return false, false, log;
    }
    var filepath, downloadLog := DownloadVideo(attempt);
    log := log + downloadLog;
    if filepath.None? {
      return false, false, log;
    }
    var uploadLog;
    success, uploadLog := UploadVideo(filepath.value, attempt.replies);
    log := log + uploadLog;
    reachedUpload := true;
  }

  /** One pending entry that does not reach upload: the loop's effects from
      `i` on are those of the entry followed by those from `i + 1` on. */
  lemma ContinueAfter(videos: seq<Entry>, world: seq<Attempt>, i: nat, before: seq<Effect>)
    requires |world| == |videos| && i < |videos|
    requires !Candidate(videos, world, i)
    ensures (if videos[i].uploaded then before else before + EntryTrace(videos[i], world[i]))
              + LoopTrace(videos, world, i + 1)
            == before + LoopTrace(videos, world, i)
  {
    if !videos[i].uploaded {
      var e := EntryTrace(videos[i], world[i]);
      assert LoopTrace(videos, world, i) == e + LoopTrace(videos, world, i + 1);
    }
  }

  /** process_videos over the loaded record: `videos` is the record's list,
      updated in place; `world` gives the outside world's answer for each
      entry; `log` is the sequence of effects performed. */
  method ProcessVideos(videos: array<Entry>, world: seq<Attempt>) returns (log: seq<Effect>)
    requires |world| == videos.Length
    modifies videos
    ensures videos[..] == RunEntries(old(videos[..]), world)
    ensures log == RunTrace(old(videos[..]), world)
  {
    ghost var initial := videos[..];
    var updated := false;
    log := [];
    for i := 0 to videos.Length
      invariant videos[..] == initial
      invariant !updated
      invariant FirstCandidate(initial, world, i) == FirstCandidate(initial, world, 0)
      invariant log + LoopTrace(initial, world, i) == LoopTrace(initial, world, 0)
    {
      var video := videos[i];
      if !video.uploaded {
        var reachedUpload, success, entryLog := ProcessEntry(video, world[i]);
        if !reachedUpload {
          ContinueAfter(initial, world, i, log);
          log := log + entryLog;
          continue;
        }
        log := log + entryLog;
        if success {
          videos[i] := video.(uploaded := true);
          updated := true;
        }
        break;
      }
    }
    if updated {
      log := log + [SaveRecord];
    }
  }
}
