/** What one run of process_videos guarantees, stated over the run's
    specification (RunEntries, RunTrace), which ProcessVideos is proved to
    implement. */
module RunProperties {
  import opened Paths
  import opened Effects
  import opened Publisher
  import opened Pipeline

  /** The page URLs handed to the extractor, in order. */
  function Extracted(log: seq<Effect>): seq<string>
    decreases |log|
  {
    if log == [] then []
    else (if log[0].Extract? then [log[0].pageUrl] else []) + Extracted(log[1..])
  }

  /** The URLs of the pending entries with index in [lo, hi), in order. */
  function PendingUrls(videos: seq<Entry>, lo: nat, hi: nat): seq<string>
    requires lo <= hi <= |videos|
    decreases hi - lo
  {
    if lo == hi then []
    else (if videos[lo].uploaded then [] else [videos[lo].url]) + PendingUrls(videos, lo + 1, hi)
  }

  /** Where the loop stops when it starts at `from`: just after the first
      candidate, or at the end of the list when there is none. */
  function StopAt(videos: seq<Entry>, world: seq<Attempt>, from: nat): (stop: nat)
    requires |world| == |videos| && from <= |videos|
    ensures from <= stop <= |videos|
  {
    match FirstCandidate(videos, world, from)
    case Some(k) => k + 1
    case None => |videos|
  }

  lemma {:induction false} ExtractedAppend(a: seq<Effect>, b: seq<Effect>)
    ensures Extracted(a + b) == Extracted(a) + Extracted(b)
    decreases |a|
  {
    if a == [] {
      assert a + b == b;
    } else {
      assert (a + b)[1..] == a[1..] + b;
      ExtractedAppend(a[1..], b);
    }
  }

  lemma {:induction false} ExtractedNone(log: seq<Effect>)
    requires forall i :: 0 <= i < |log| ==> !log[i].Extract?
    ensures Extracted(log) == []
    decreases |log|
  {
    if log != [] {
      ExtractedNone(log[1..]);
    }
  }

  /** Processing one pending entry extracts its page URL and nothing else. */
  lemma EntryExtractsOnce(e: Entry, a: Attempt)
    ensures Extracted(EntryTrace(e, a)) == [e.url]
  {
    var head := [Extract(e.url)];
    var rest: seq<Effect>;
    if !Resolved(a) {
      rest := [];
    } else if a.fetch != Completed {
      rest := DownloadTrace(a);
    } else {
      var u := UploadTrace(DownloadPath(a), a.replies);
      rest := DownloadTrace(a) + u;
      ExtractedNone(u);
      ExtractedAppend(DownloadTrace(a), u);
    }
    assert EntryTrace(e, a) == head + rest;
    ExtractedNone(rest);
    ExtractedAppend(head, rest);
  }

  /** The loop extracts every pending entry from `from` up to and including
      the first candidate, in list order, and no entry after it: a failed
      extraction or download moves on to the next pending entry, and the
      first upload attempt ends the loop. */
  lemma {:induction false} LoopExtractsPending(videos: seq<Entry>, world: seq<Attempt>, from: nat)
    requires |world| == |videos| && from <= |videos|
    ensures Extracted(LoopTrace(videos, world, from)) == PendingUrls(videos, from, StopAt(videos, world, from))
    decreases |videos| - from
  {
    if from < |videos| {
      var url := videos[from].url;
      if Candidate(videos, world, from) {
        EntryExtractsOnce(videos[from], world[from]);
        assert StopAt(videos, world, from) == from + 1;
        assert PendingUrls(videos, from + 1, from + 1) == [];
      } else {
        var stop := StopAt(videos, world, from);
        assert FirstCandidate(videos, world, from) == FirstCandidate(videos, world, from + 1);
        assert stop == StopAt(videos, world, from + 1) && from < stop;
        LoopExtractsPending(videos, world, from + 1);
        assert PendingUrls(videos, from, stop)
            == (if videos[from].uploaded then [] else [url]) + PendingUrls(videos, from + 1, stop);
        if !videos[from].uploaded {
          EntryExtractsOnce(videos[from], world[from]);
          ExtractedAppend(EntryTrace(videos[from], world[from]), LoopTrace(videos, world, from + 1));
        }
      }
    }
  }

  /** A whole run tries exactly the pending entries up to and including the
      first one whose extraction and download succeed (all pending entries
      when there is none), in list order. */
  lemma RunExtractsPending(videos: seq<Entry>, world: seq<Attempt>)
    requires |world| == |videos|
    ensures Extracted(RunTrace(videos, world)) == PendingUrls(videos, 0, StopAt(videos, world, 0))
  {
    var save := if Flipped(videos, world).Some? then [SaveRecord] else [];
    var loop := LoopTrace(videos, world, 0);
    assert RunTrace(videos, world) == loop + save;
    LoopExtractsPending(videos, world, 0);
    ExtractedAppend(loop, save);
    assert Extracted(save) == [];
  }

  /** The loop performs no effect at all exactly when every entry from
      `from` on is already uploaded. */
  lemma {:induction false} LoopIdleIffAllUploaded(videos: seq<Entry>, world: seq<Attempt>, from: nat)
    requires |world| == |videos| && from <= |videos|
    ensures LoopTrace(videos, world, from) == [] <==> forall i :: from <= i < |videos| ==> videos[i].uploaded
    decreases |videos| - from
  {
    if from < |videos| {
      LoopIdleIffAllUploaded(videos, world, from + 1);
      if !videos[from].uploaded {
        var e := EntryTrace(videos[from], world[from]);
        assert LoopTrace(videos, world, from)[0] == e[0];
      }
    }
  }

  /** A run over a record whose entries are all uploaded extracts,
      downloads, uploads and saves nothing; a run with a pending entry
      always does something. */
  lemma RunIdleIffAllUploaded(videos: seq<Entry>, world: seq<Attempt>)
    requires |world| == |videos|
    ensures RunTrace(videos, world) == [] <==> forall i :: 0 <= i < |videos| ==> videos[i].uploaded
  {
    LoopIdleIffAllUploaded(videos, world, 0);
    if forall i :: 0 <= i < |videos| ==> videos[i].uploaded {
      assert FirstCandidate(videos, world, 0).None?;
    }
  }

  /** The record is written back exactly when an entry changed: no
      spurious writes, and no change left unsaved. */
  lemma SavedIffChanged(videos: seq<Entry>, world: seq<Attempt>)
    requires |world| == |videos|
    ensures SaveRecord in RunTrace(videos, world) <==> RunEntries(videos, world) != videos
  {
    match Flipped(videos, world)
    case Some(k) =>
      assert RunEntries(videos, world)[k] != videos[k];
    case None =>
      assert RunEntries(videos, world) == videos;
  }

  /** At most one entry changes in a run, the change is its flag going from
      false to true, and the entry is the first pending one, in list order,
      whose extraction and download succeeded; it was published. */
  lemma RunFlipsFirstReady(videos: seq<Entry>, world: seq<Attempt>, k: nat)
    requires |world| == |videos| && k < |videos|
    requires RunEntries(videos, world)[k] != videos[k]
    ensures !videos[k].uploaded && RunEntries(videos, world)[k] == Entry(videos[k].url, true)
    ensures Ready(world[k]) && Published(world[k].replies)
    ensures forall j :: 0 <= j < k ==> videos[j].uploaded || !Ready(world[j])
    ensures forall j :: 0 <= j < |videos| && j != k ==> RunEntries(videos, world)[j] == videos[j]
  {
    forall j | 0 <= j < k
      ensures videos[j].uploaded || !Ready(world[j])
    {
      assert !Candidate(videos, world, j);
    }
  }

  /** The first candidate, when its reel is published, is marked uploaded
      with its URL kept, and the record is written back. */
  lemma PublishedCandidateFlips(videos: seq<Entry>, world: seq<Attempt>, k: nat)
    requires |world| == |videos|
    requires FirstCandidate(videos, world, 0) == Some(k) && Published(world[k].replies)
    ensures RunEntries(videos, world)[k] == Entry(videos[k].url, true)
    ensures SaveRecord in RunTrace(videos, world)
  {
    assert Flipped(videos, world) == Some(k);
    var loop := LoopTrace(videos, world, 0);
    assert RunTrace(videos, world) == loop + [SaveRecord];
    assert RunTrace(videos, world)[|loop|] == SaveRecord;
  }

  /** A run with no candidate, or whose upload was not published, leaves
      every entry as it was and does not write the record. */
  lemma UnpublishedRunChangesNothing(videos: seq<Entry>, world: seq<Attempt>)
    requires |world| == |videos|
    requires var c := FirstCandidate(videos, world, 0);
      c.None? || !Published(world[c.value].replies)
    ensures RunEntries(videos, world) == videos
    ensures SaveRecord !in RunTrace(videos, world)
  {
    assert Flipped(videos, world).None?;
    assert RunTrace(videos, world) == LoopTrace(videos, world, 0) + [];
  }

  /** An entry whose extraction or download fails stays pending. */
  lemma FailedEntryStaysPending(videos: seq<Entry>, world: seq<Attempt>, i: nat)
    requires |world| == |videos| && i < |videos|
    requires !videos[i].uploaded && !Ready(world[i])
    ensures !RunEntries(videos, world)[i].uploaded
  {
  }

  /** The effects of an entry that does not reach upload: the extraction,
      then, when it gave a usable URL, the GET and, for a stream that broke
      after the file was opened, the creation of the entry's own file. */
  lemma StoppedEntryTrace(e: Entry, a: Attempt)
    requires !Ready(a)
    ensures Resolved(a) ==>
              EntryTrace(e, a)
              == [Extract(e.url), Fetch(a.direct.value, DownloadPath(a))]
                 + (if a.fetch == Interrupted then [WriteFile(DownloadPath(a))] else [])
    ensures !Resolved(a) ==> EntryTrace(e, a) == [Extract(e.url)]
  {
    if Resolved(a) {
      assert EntryTrace(e, a) == [Extract(e.url)] + DownloadTrace(a);
    }
  }

  /** Processing one entry makes the GET exactly when the extraction gave
      a usable URL, reaches the Graph API exactly when the download also
      completed, and makes the publish request exactly when in addition
      the create reply carried an `id`. */
  lemma EntryStages(e: Entry, a: Attempt)
    ensures var log := EntryTrace(e, a);
      (exists i :: 0 <= i < |log| && log[i].Fetch?) <==> Resolved(a)
    ensures var log := EntryTrace(e, a);
      (exists i :: 0 <= i < |log| && log[i].CreateMedia?) <==> Ready(a)
    ensures var log := EntryTrace(e, a);
      (exists i :: 0 <= i < |log| && log[i].PublishMedia?) <==> Ready(a) && a.replies.containerId.Some?
  {
    var log := EntryTrace(e, a);
    if !Ready(a) {
      StoppedEntryTrace(e, a);
      if Resolved(a) {
        assert log[1].Fetch?;
      }
    } else {
      ReadyEntryStages(e, a);
    }
  }

  /** The stages of the entry that reaches upload, by position: the GET is
      its second effect, the create request its fourth, and a publish
      request, when made, its fifth. */
  lemma ReadyEntryStages(e: Entry, a: Attempt)
    requires Ready(a)
    ensures var log := EntryTrace(e, a);
      |log| >= 4 && log[1].Fetch? && log[3].CreateMedia? &&
      (a.replies.containerId.Some? ==> |log| >= 5 && log[4].PublishMedia?) &&
      ((exists i :: 0 <= i < |log| && log[i].PublishMedia?) <==> a.replies.containerId.Some?)
  {
    var path := DownloadPath(a);
    var u := UploadTrace(path, a.replies);
    var log := EntryTrace(e, a);
    CandidateEntryTrace(e, a);
    var lead := [Extract(e.url), Fetch(a.direct.value, path), WriteFile(path)];
    assert log == lead + u;
    assert log[1] == lead[1] && log[3] == u[0];
    if a.replies.containerId.Some? {
      assert log[4] == u[1];
    } else {
      assert |log| == 4;
      assert forall i :: 0 <= i < 4 ==> !log[i].PublishMedia?;
    }
  }

  /** The only file processing an entry removes is its own download, and
      only once its reel was published. */
  lemma EntryRemovesOnlyUpload(e: Entry, a: Attempt, p: string)
    requires RemoveFile(p) in EntryTrace(e, a)
    ensures Ready(a) && Published(a.replies) && p == DownloadPath(a)
  {
    if Ready(a) {
      var path := DownloadPath(a);
      var u := UploadTrace(path, a.replies);
      CandidateEntryTrace(e, a);
      assert EntryTrace(e, a) == [Extract(e.url), Fetch(a.direct.value, path), WriteFile(path)] + u;
      assert RemoveFile(p) in u;
    }
  }

  /** The only file the loop removes from `from` on is the download of the
      first candidate, and only once its reel was published. */
  lemma {:induction false} LoopRemovesOnlyUpload(videos: seq<Entry>, world: seq<Attempt>, from: nat, p: string)
    requires |world| == |videos| && from <= |videos|
    requires RemoveFile(p) in LoopTrace(videos, world, from)
    ensures var c := FirstCandidate(videos, world, from);
      c.Some? && p == DownloadPath(world[c.value]) && Published(world[c.value].replies)
    decreases |videos| - from
  {
    if Candidate(videos, world, from) {
      EntryRemovesOnlyUpload(videos[from], world[from], p);
    } else if videos[from].uploaded {
      LoopRemovesOnlyUpload(videos, world, from + 1, p);
    } else {
      var e := EntryTrace(videos[from], world[from]);
      var rest := LoopTrace(videos, world, from + 1);
      assert LoopTrace(videos, world, from) == e + rest;
      if RemoveFile(p) in e {
        EntryRemovesOnlyUpload(videos[from], world[from], p);
        assert false;
      }
      LoopRemovesOnlyUpload(videos, world, from + 1, p);
    }
  }

  /** A run removes no file but the download of the entry it published. */
  lemma RunRemovesOnlyUpload(videos: seq<Entry>, world: seq<Attempt>, p: string)
    requires |world| == |videos|
    requires RemoveFile(p) in RunTrace(videos, world)
    ensures var c := FirstCandidate(videos, world, 0);
      c.Some? && p == DownloadPath(world[c.value]) && Published(world[c.value].replies)
  {
    var save := if Flipped(videos, world).Some? then [SaveRecord] else [];
    var loop := LoopTrace(videos, world, 0);
    assert RunTrace(videos, world) == loop + save;
    assert RemoveFile(p) !in save;
    LoopRemovesOnlyUpload(videos, world, 0, p);
  }

  /** The effects of the entry a run uploads: extraction, the GET, the
      file's creation, then the upload's own effects. */
  lemma CandidateEntryTrace(e: Entry, a: Attempt)
    requires Ready(a)
    ensures EntryTrace(e, a)
         == ([Extract(e.url), Fetch(a.direct.value, DownloadPath(a))] + [WriteFile(DownloadPath(a))])
            + UploadTrace(DownloadPath(a), a.replies)
  {
    assert DownloadTrace(a) == [Fetch(a.direct.value, DownloadPath(a)), WriteFile(DownloadPath(a))];
  }

  /** Processing the entry that reaches upload leaves its downloaded file in
      place exactly when the reel was not published. */
  lemma UploadedEntryFile(e: Entry, a: Attempt, files: set<string>)
    requires Ready(a)
    ensures DownloadPath(a) in ApplyEffects(files, EntryTrace(e, a)) <==> !Published(a.replies)
  {
    var path := DownloadPath(a);
    var lead := [Extract(e.url), Fetch(a.direct.value, path)];
    CandidateEntryTrace(e, a);
    ApplyEffectsAppend(files, lead + [WriteFile(path)], UploadTrace(path, a.replies));
    ApplyEffectsAppend(files, lead, [WriteFile(path)]);
    var f0 := ApplyEffects(files, lead);
    assert ApplyEffects(f0, [WriteFile(path)]) == ApplyEffects(f0 + {path}, []);
    UploadDeletesOnlyOnPublish(f0 + {path}, path, a.replies);
  }

  /** From `from` on, the loop leaves the first candidate's download in
      place exactly when its reel was not published, whatever the
      directory held before. */
  lemma {:induction false} LoopKeepsUploadUnlessPublished(
    videos: seq<Entry>, world: seq<Attempt>, from: nat, k: nat, files: set<string>)
    requires |world| == |videos| && from <= |videos|
    requires FirstCandidate(videos, world, from) == Some(k)
    ensures DownloadPath(world[k]) in ApplyEffects(files, LoopTrace(videos, world, from))
            <==> !Published(world[k].replies)
    decreases |videos| - from
  {
    if from == k {
      assert LoopTrace(videos, world, from) == EntryTrace(videos[k], world[k]);
      UploadedEntryFile(videos[k], world[k], files);
    } else {
      assert !Candidate(videos, world, from);
      assert FirstCandidate(videos, world, from + 1) == Some(k);
      if videos[from].uploaded {
        assert LoopTrace(videos, world, from) == LoopTrace(videos, world, from + 1);
        LoopKeepsUploadUnlessPublished(videos, world, from + 1, k, files);
      } else {
        var e := EntryTrace(videos[from], world[from]);
        assert LoopTrace(videos, world, from) == e + LoopTrace(videos, world, from + 1);
        ApplyEffectsAppend(files, e, LoopTrace(videos, world, from + 1));
        LoopKeepsUploadUnlessPublished(videos, world, from + 1, k, ApplyEffects(files, e));
      }
    }
  }

  /** After a run that reached an upload, the downloaded file is gone from
      the downloads directory exactly when the reel was published; after a
      failed create or publish step it stays behind. */
  lemma RunDeletesUploadOnlyOnPublish(videos: seq<Entry>, world: seq<Attempt>, files: set<string>, k: nat)
    requires |world| == |videos|
    requires FirstCandidate(videos, world, 0) == Some(k)
    ensures DownloadPath(world[k]) in ApplyEffects(files, RunTrace(videos, world))
            <==> !Published(world[k].replies)
  {
    var save := if Flipped(videos, world).Some? then [SaveRecord] else [];
    var loop := LoopTrace(videos, world, 0);
    assert RunTrace(videos, world) == loop + save;
    ApplyEffectsAppend(files, loop, save);
    LoopKeepsUploadUnlessPublished(videos, world, 0, k, files);
    var after := ApplyEffects(files, loop);
    if save != [] {
      assert ApplyEffects(after, save) == ApplyEffects(after, []);
    }
  }
}
