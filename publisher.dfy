/** `upload_video`: publish a downloaded file as a reel in two Graph API
    steps (create a media container, then publish it) and delete the local
    file once the publish step has answered with an `id`. */
module Publisher {
  import opened Paths
  import opened Effects

  /** The two Graph API replies, reduced to what the script inspects: the
      `id` of the created container, if the reply has one, and whether the
      publish reply has an `id`. */
  datatype Replies = Replies(containerId: Option<string>, publishedHasId: bool)

  /** Whether the reel went live: both replies carry an `id`. */
  predicate Published(replies: Replies)
  {
    replies.containerId.Some? && replies.publishedHasId
  }

  /** The effects of uploading the file at `path`. The publish request is
      made exactly when the create reply has an `id`, and the file is
      removed exactly when the reel was published. */
  function UploadTrace(path: string, replies: Replies): (log: seq<Effect>)
    ensures 1 <= |log| <= 3 && log[0] == CreateMedia(PublicUrl(path))
    ensures |log| >= 2 <==> replies.containerId.Some?
    ensures |log| >= 2 ==> log[1] == PublishMedia(replies.containerId.value)
    ensures |log| == 3 <==> Published(replies)
    ensures |log| == 3 ==> log[2] == RemoveFile(path)
    ensures RemoveFile(path) in log <==> Published(replies)
    ensures forall i :: 0 <= i < |log| ==> log[i].CreateMedia? || log[i].PublishMedia? || log[i] == RemoveFile(path)
  {
    var create := CreateMedia(PublicUrl(path));
    match replies.containerId
    case None => [create]
    case Some(id) =>
      if replies.publishedHasId then [create, PublishMedia(id), RemoveFile(path)]
      else [create, PublishMedia(id)]
  }

  /** upload_video: build the public URL, request the container, stop with
      false when its reply has no `id`, otherwise request publication and,
      when that reply has an `id`, delete the file and return true. */
  method UploadVideo(path: string, replies: Replies) returns (ok: bool, log: seq<Effect>)
    ensures ok <==> Published(replies)
    ensures log == UploadTrace(path, replies)
  {
    var publicVideoUrl := PublicUrl(path);
    if publicVideoUrl == [] {
      // The public URL is never empty, so this early return is dead code.
      return false, [];
    }
    log := [CreateMedia(publicVideoUrl)];
    if replies.containerId.None? {
      return false, log;
    }
    var videoId := replies.containerId.value;
    log := log + [PublishMedia(videoId)];
    if replies.publishedHasId {
      log := log + [RemoveFile(path)];
      ok := true;
    } else {
      ok := false;
    }
  }

  /** The downloads directory after an upload: the file is gone exactly when
      the reel was published; a missing container `id`, or a publish reply
      without one, leaves every file in place. */
  lemma UploadDeletesOnlyOnPublish(files: set<string>, path: string, replies: Replies)
    ensures ApplyEffects(files, UploadTrace(path, replies))
              == if Published(replies) then files - {path} else files
  {
    var log := UploadTrace(path, replies);
    var url := PublicUrl(path);
    match replies.containerId
    case None =>
      assert log == [CreateMedia(url)];
      assert ApplyEffects(files, log) == ApplyEffects(files, []);
    case Some(id) =>
      if replies.publishedHasId {
        assert log == [CreateMedia(url)] + [PublishMedia(id)] + [RemoveFile(path)];
        ApplyEffectsAppend(files, [CreateMedia(url)] + [PublishMedia(id)], [RemoveFile(path)]);
        ApplyEffectsAppend(files, [CreateMedia(url)], [PublishMedia(id)]);
        assert ApplyEffects(files, [RemoveFile(path)]) == ApplyEffects(files - {path}, []);
        ApplyEffectsAppend(files, [], [RemoveFile(path)]);
      } else {
        assert log == [CreateMedia(url)] + [PublishMedia(id)];
        ApplyEffectsAppend(files, [CreateMedia(url)], [PublishMedia(id)]);
      }
  }
}
