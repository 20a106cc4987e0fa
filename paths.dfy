/** Path handling of the upload script: POSIX `os.path.join` and
    `os.path.basename`, and the public URL under which the file server
    exposes a downloaded video. */
module Paths {

  /** The POSIX path separator. */
  const Sep: char := '/'

  /** Directory the downloads are written to (DOWNLOAD_FOLDER). */
  const DownloadFolder: string := "downloads"

  /** The hard-coded deployment host of the public file server. */
  const PublicHost: string := "https://your-render-app.onrender.com"

  /** The file server's only route: `/videos/<filename>`. */
  const VideosRoute: string := "/videos/"

  /** Everything of a public video URL before the file name. */
  const UrlPrefix: string := PublicHost + VideosRoute

  /** `str.rfind` for one character: the index of the last occurrence of
      `c` in `s`, or -1 when there is none. */
  function RFind(s: string, c: char): (k: int)
    ensures -1 <= k < |s|
    ensures k >= 0 ==> s[k] == c
    ensures forall i :: k < i < |s| ==> s[i] != c
    decreases |s|
  {
    if s == [] then -1
    else if s[|s| - 1] == c then |s| - 1
    else RFind(s[..|s| - 1], c)
  }

  /** POSIX `basename`: everything after the last separator (see
      BasenameIsLastSegment). */
  function Basename(p: string): string
  {
    p[RFind(p, Sep) + 1..]
  }

  /** The base name is the longest suffix of `p` that holds no separator. */
  lemma BasenameIsLastSegment(p: string)
    ensures var r := Basename(p);
      |r| <= |p| && r == p[|p| - |r|..] && Sep !in r && (|r| < |p| ==> p[|p| - |r| - 1] == Sep)
  {
    var k := RFind(p, Sep) + 1;
    assert forall i :: 0 <= i < |p[k..]| ==> p[k..][i] == p[k + i];
  }

  /** POSIX `join` of two components: an absolute second component replaces
      the first; otherwise a separator is inserted unless the first is empty
      or already ends in one. */
  function Join(dir: string, name: string): (r: string)
    ensures |name| <= |r| && r[|r| - |name|..] == name
    ensures name != [] && name[0] == Sep ==> r == name
    ensures (name == [] || name[0] != Sep) ==> |dir| <= |r| && r[..|dir|] == dir
    ensures (name == [] || name[0] != Sep) && dir != [] && dir[|dir| - 1] != Sep ==>
              |r| == |dir| + 1 + |name| && r[|dir|] == Sep
    ensures (name == [] || name[0] != Sep) && (dir == [] || dir[|dir| - 1] == Sep) ==>
              |r| == |dir| + |name|
  {
    if name != [] && name[0] == Sep then name
    else if dir == [] || dir[|dir| - 1] == Sep then dir + name
    else dir + [Sep] + name
  }

  /** The URL handed to the Graph API for a local file: the public host,
      the `/videos/` route, then the file's base name. It is never empty,
      so the "failed to generate a public video URL" branch of the upload
      cannot be taken. */
  function PublicUrl(path: string): (url: string)
    ensures url != [] && UrlPrefix <= url
  {
    UrlPrefix + Basename(path)
  }

  /** What follows `/videos/` in a public URL is the last segment of the
      local path: the longest suffix that holds no separator. It is empty
      when the path ends in a separator; the generated download names are
      never empty (see VideoFilenameIsSegment). */
  lemma PublicUrlNamesOneSegment(path: string)
    ensures var tail := PublicUrl(path)[|UrlPrefix|..];
      Sep !in tail && |tail| <= |path| && tail == path[|path| - |tail|..] &&
      (|tail| < |path| ==> path[|path| - |tail| - 1] == Sep)
  {
    BasenameIsLastSegment(path);
    assert PublicUrl(path)[|UrlPrefix|..] == Basename(path);
  }

  /** `rfind` over a concatenation: a hit in the second part wins, otherwise
      the answer is that of the first part. */
  lemma {:induction false} RFindAppend(a: string, b: string, c: char)
    ensures RFind(a + b, c) == if RFind(b, c) >= 0 then |a| + RFind(b, c) else RFind(a, c)
    decreases |b|
  {
    if b == [] {
      assert a + b == a;
    } else if b[|b| - 1] != c {
      var init := b[..|b| - 1];
      assert (a + b)[..|a + b| - 1] == a + init;
      RFindAppend(a, init, c);
    }
  }

  /** Taking the base name after a component that ends in a separator
      only looks at what follows the separator. */
  lemma BasenameAfterSep(prefix: string, s: string)
    requires prefix != [] && prefix[|prefix| - 1] == Sep
    ensures Basename(prefix + s) == Basename(s)
  {
    RFindAppend(prefix, s, Sep);
    var j := RFind(s, Sep);
    var whole := prefix + s;
    if j >= 0 {
      assert RFind(whole, Sep) + 1 == |prefix| + j + 1;
      assert whole[|prefix| + j + 1..] == s[j + 1..];
    } else {
      assert RFind(prefix, Sep) == |prefix| - 1;
      assert RFind(whole, Sep) + 1 == |prefix|;
      assert whole[|prefix|..] == s;
    }
  }

  /** Joining never changes the base name of the second component. */
  lemma BasenameOfJoin(dir: string, name: string)
    ensures Basename(Join(dir, name)) == Basename(name)
  {
    if name != [] && name[0] == Sep {
    } else if dir == [] {
      assert dir + name == name;
    } else if dir[|dir| - 1] == Sep {
      BasenameAfterSep(dir, name);
    } else {
      assert dir + [Sep] + name == (dir + [Sep]) + name;
      BasenameAfterSep(dir + [Sep], name);
    }
  }

  /** The public URL of a file downloaded as `downloads/<name>`, where the
      name holds no separator, is the host, `/videos/`, then exactly that
      name: the file server's route finds the file under the name it was
      saved as. */
  lemma PublicUrlOfDownload(name: string)
    requires Sep !in name
    ensures PublicUrl(Join(DownloadFolder, name)) == UrlPrefix + name
  {
    BasenameOfJoin(DownloadFolder, name);
    assert RFind(name, Sep) == -1;
    assert Basename(name) == name;
  }
}
