/** The outside world as the upload script sees it: optional values, the
    log of side effects a run performs, and the downloads directory as the
    set of file paths those effects leave behind. */
module Effects {

  datatype Option<T> = None | Some(value: T)

  /** One call the script makes to the outside world, with the arguments
      that matter for the properties stated about it. */
  datatype Effect =
    | Extract(pageUrl: string)                // yt_dlp info extraction for an entry's page URL
    | Fetch(directUrl: string, path: string)  // streaming GET of the direct media URL
    | WriteFile(path: string)                 // the local file is opened for writing (created or truncated)
    | CreateMedia(videoUrl: string)           // POST to the Graph API `media` endpoint
    | PublishMedia(creationId: string)        // POST to the Graph API `media_publish` endpoint
    | RemoveFile(path: string)                // os.remove of the local file
    | SaveRecord                              // videos.json written back

  /** What one effect does to the set of files in the downloads directory. */
  function Apply(files: set<string>, e: Effect): set<string>
  {
    match e
    case WriteFile(p) => files + {p}
    case RemoveFile(p) => files - {p}
    case _ => files
  }

  /** The files present after a log of effects, in order. A path that no
      effect writes or removes is present afterwards exactly when it was
      present before. */
  function ApplyEffects(files: set<string>, log: seq<Effect>): (after: set<string>)
    ensures forall p :: WriteFile(p) !in log && RemoveFile(p) !in log ==> (p in after <==> p in files)
    decreases |log|
  {
    if log == [] then files
    else
      assert forall p :: WriteFile(p) !in log ==> WriteFile(p) !in log[1..];
      assert forall p :: RemoveFile(p) !in log ==> RemoveFile(p) !in log[1..];
      ApplyEffects(Apply(files, log[0]), log[1..])
  }

  /** Applying a log in two pieces is applying it at once. */
  lemma {:induction false} ApplyEffectsAppend(files: set<string>, a: seq<Effect>, b: seq<Effect>)
    ensures ApplyEffects(files, a + b) == ApplyEffects(ApplyEffects(files, a), b)
    decreases |a|
  {
    if a == [] {
      assert a + b == b;
    } else {
      assert (a + b)[1..] == a[1..] + b;
      ApplyEffectsAppend(Apply(files, a[0]), a[1..], b);
    }
  }
}
