/** The pure parts of `fetchRepoFiles` (src/lib/analysis/github-fetcher.ts):
    the extension of a path, the extension-based binary test, the owner/repo
    pattern on the URL, the blob filter with its 500-entry limit, and the
    record built for each fetched file. The GitHub requests and the base64
    and UTF-8 decoding are parameters. */
module Fetcher {
  import opened Wrappers
  import opened Strings
  import opened Seqs
  import opened Types
  import opened Lines

  // ---------------------------------------------------------------- extension

  /** Lines 101-104: `.` and the lower-cased text after the last `.` of the
      whole path, or nothing when the path has no `.` at all. The directory
      part is not set aside, so `a.b/Makefile` has the extension `.b/makefile`. */
  function GetExtension(path: string): (e: string)
    ensures e == "" <==> '.' !in path
    ensures '.' in path ==> exists k :: (0 <= k < |path| && path[k] == '.' &&
      '.' !in path[k + 1..] && e == "." + LowerStr(path[k + 1..]))
  {
    var parts := Split(path, '.');
    SplitCount(path, '.');
    SplitLast(path, '.');
    if |parts| > 1 then
      var last := parts[|parts| - 1];
      assert path[|path| - |last| - 1] == '.';
      "." + LowerStr(last)
    else ""
  }

  /** A path that ends in `.` and a dot-free `ext` has the extension `ext`,
      lower-cased, whatever comes before it. */
  lemma ExtensionOfName(stem: string, ext: string)
    requires '.' !in ext
    ensures GetExtension(stem + "." + ext) == "." + LowerStr(ext)
  {
    var path := stem + "." + ext;
    assert path[|stem|] == '.';
    var k :| 0 <= k < |path| && path[k] == '.' && '.' !in path[k + 1..] &&
      GetExtension(path) == "." + LowerStr(path[k + 1..]);
    assert path[k + 1..] == ext;
  }

  // ------------------------------------------------------------- binary test

  /** Lines 107-112. */
  const BinaryExtensions: seq<string> := [
    ".png", ".jpg", ".jpeg", ".gif", ".ico", ".svg",
    ".pdf", ".zip", ".tar", ".gz", ".exe", ".dll",
    ".so", ".dylib", ".woff", ".woff2", ".ttf", ".eot",
    ".mp4", ".mp3", ".wav", ".avi", ".mov"]

  /** Lines 106-116: binary by extension alone. */
  predicate IsBinaryPath(path: string) {
    GetExtension(path) in BinaryExtensions
  }

  /** A path without any `.` is never taken for binary. */
  lemma DotlessNeverBinary(path: string)
    requires '.' !in path
    ensures !IsBinaryPath(path)
  {
    assert forall k :: 0 <= k < |BinaryExtensions| ==> BinaryExtensions[k] != "";
  }

  /** The test only looks at the text after the last dot, in either case. */
  lemma BinaryByLastExtension(stem: string, ext: string)
    requires '.' !in ext
    ensures IsBinaryPath(stem + "." + ext) <==> "." + LowerStr(ext) in BinaryExtensions
  {
    ExtensionOfName(stem, ext);
  }

  // --------------------------------------------------------------- URL parse

  const Host: string := "github.com/"

  /** Lines 25: the error every unmatched URL raises. */
  const InvalidUrl: string := "Invalid GitHub URL"

  datatype GitHubRepo = GitHubRepo(owner: string, repo: string)

  /** The longest slash-free front of `s`: what `[^\/]+` consumes greedily. */
  function Run(s: string): (r: string)
    ensures r <= s && '/' !in r
    ensures |r| == |s| || s[|r|] == '/'
  {
    if s == [] || s[0] == '/' then [] else [s[0]] + Run(s[1..])
  }

  /** The run of a slash-free text followed by a slash or by nothing is that text. */
  lemma {:induction false} RunOf(x: string, y: string)
    requires '/' !in x
    requires y == [] || y[0] == '/'
    ensures Run(x + y) == x
  {
    if x != [] {
      assert (x + y)[1..] == x[1..] + y;
      RunOf(x[1..], y);
    } else {
      assert x + y == y;
    }
  }

  /** The pattern `github\.com\/([^\/]+)\/([^\/]+)` matches at `i` with
      groups `owner` and `repo`: the host, a non-empty slash-free owner, a
      slash and a non-empty slash-free repository that the greedy group
      extends up to the next slash or the end of the text. */
  predicate ShapeAt(u: string, i: nat, owner: string, repo: string) {
    var a := i + |Host|;
    var b := a + |owner| + 1;
    && owner != [] && repo != [] && '/' !in owner && '/' !in repo
    && b + |repo| <= |u|
    && u[i..a] == Host
    && u[a..a + |owner|] == owner
    && u[a + |owner|] == '/'
    && u[b..b + |repo|] == repo
    && (b + |repo| == |u| || u[b + |repo|] == '/')
  }

  /** The host occurs at `i`. */
  predicate HostAt(u: string, i: nat) {
    i + |Host| <= |u| && u[i..i + |Host|] == Host
  }

  /** The attempt at one position: after the host, the greedy owner run, a
      slash, and the greedy repository run. */
  function MatchAt(u: string, i: nat): Option<(string, string)> {
    if HostAt(u, i) then
      var a := i + |Host|;
      var owner := Run(u[a..]);
      if owner != [] && a + |owner| < |u| then
        var repo := Run(u[a + |owner| + 1..]);
        if repo != [] then Some((owner, repo)) else None
      else None
    else None
  }

  /** The attempt at `i` succeeds exactly on the shape there, with its groups. */
  lemma MatchAtShape(u: string, i: nat)
    ensures MatchAt(u, i).Some? ==> ShapeAt(u, i, MatchAt(u, i).value.0, MatchAt(u, i).value.1)
    ensures forall o, r :: ShapeAt(u, i, o, r) ==> MatchAt(u, i) == Some((o, r))
  {
    if HostAt(u, i) {
      ShapeGroups(u, i);
    }
  }

  /** With the host at `i`, the match there is exactly what the greedy runs give. */
  lemma ShapeGroups(u: string, i: nat)
    requires HostAt(u, i)
    ensures forall o, r {:trigger ShapeAt(u, i, o, r)} :: ShapeAt(u, i, o, r) <==>
      var a := i + |Host|;
      && o == Run(u[a..]) && o != [] && a + |o| < |u|
      && r == Run(u[a + |o| + 1..]) && r != []
  {
    forall o, r ensures ShapeAt(u, i, o, r) <==>
      (o == Run(u[i + |Host|..]) && o != [] && i + |Host| + |o| < |u| && r == Run(u[i + |Host| + |o| + 1..]) && r != [])
    {
      if ShapeAt(u, i, o, r) {
        ShapeRuns(u, i, o, r);
      } else if o == Run(u[i + |Host|..]) && o != [] && i + |Host| + |o| < |u| && r == Run(u[i + |Host| + |o| + 1..]) && r != [] {
        RunsShape(u, i, o, r);
      }
    }
  }

  lemma ShapeRuns(u: string, i: nat, o: string, r: string)
    requires ShapeAt(u, i, o, r)
    ensures o == Run(u[i + |Host|..]) && r == Run(u[i + |Host| + |o| + 1..])
  {
    ShapeToRuns(u, i + |Host|, o);
    ShapeToRuns(u, i + |Host| + |o| + 1, r);
  }

  lemma RunsShape(u: string, i: nat, o: string, r: string)
    requires HostAt(u, i)
    requires o == Run(u[i + |Host|..]) && o != [] && i + |Host| + |o| < |u|
    requires r == Run(u[i + |Host| + |o| + 1..]) && r != []
    ensures ShapeAt(u, i, o, r)
  {
    var a := i + |Host|;
    var b := a + |o| + 1;
    RunsToShape(u, a, o);
    RunsToShape(u, b, r);
    assert u[i..a] == Host && u[a + |o|] == '/';
  }

  /** A slash-free stretch of `u` at `a` that ends at a slash or at the end is the run there. */
  lemma ShapeToRuns(u: string, a: nat, x: string)
    requires a + |x| <= |u| && u[a..a + |x|] == x && '/' !in x
    requires a + |x| == |u| || u[a + |x|] == '/'
    ensures Run(u[a..]) == x
  {
    assert u[a..] == x + u[a + |x|..];
    RunOf(x, u[a + |x|..]);
  }

  /** The run at `a` is the stretch of `u` it covers, followed by a slash or the end. */
  lemma RunsToShape(u: string, a: nat, x: string)
    requires a <= |u| && x == Run(u[a..])
    ensures a + |x| <= |u| && u[a..a + |x|] == x
    ensures a + |x| == |u| || u[a + |x|] == '/'
  {
    assert u[a..][..|x|] == x;
  }

  /** The leftmost match from position `i` on, as `String.prototype.match`
      searches. */
  function FindMatch(u: string, i: nat): (m: Option<(nat, string, string)>)
    requires i <= |u|
    decreases |u| - i
    ensures m.None? ==> forall j: nat, o, r :: i <= j && ShapeAt(u, j, o, r) ==> false
    ensures m.Some? ==> i <= m.value.0 && ShapeAt(u, m.value.0, m.value.1, m.value.2)
    ensures m.Some? ==> forall j: nat, o, r :: i <= j < m.value.0 ==> !ShapeAt(u, j, o, r)
  {
    MatchAtShape(u, i);
    match MatchAt(u, i)
    case Some((o, r)) => Some((i, o, r))
    case None =>
      if i == |u| then None else FindMatch(u, i + 1)
  }

  /** Line 29: a `.git` at the very end of the repository name is dropped. */
  function StripGit(r: string): (s: string)
    ensures EndsWith(r, ".git") ==> s + ".git" == r
    ensures !EndsWith(r, ".git") ==> s == r
  {
    if EndsWith(r, ".git") then r[..|r| - 4] else r
  }

  /** Lines 23-29: the first `github.com/<owner>/<repo>` of the URL, with a
      trailing `.git` dropped from the repository; no match is an error. */
  function ParseGitHubUrl(url: string): (r: Result<GitHubRepo, string>)
    ensures r.Err? ==> r.error == InvalidUrl
    ensures r.Err? <==> forall i: nat, o, p :: ShapeAt(url, i, o, p) ==> false
    ensures r.Ok? ==> exists i: nat, p :: (ShapeAt(url, i, r.value.owner, p) && r.value.repo == StripGit(p) &&
      forall j: nat, o, q :: j < i ==> !ShapeAt(url, j, o, q))
  {
    match FindMatch(url, 0)
    case None => Err(InvalidUrl)
    case Some((i, o, p)) =>
      assert ShapeAt(url, i, o, p);
      Ok(GitHubRepo(o, StripGit(p)))
  }

  /** A URL written the usual way parses back to its owner and repository,
      whatever scheme or prefix without a `g` precedes the host and whatever
      path follows the repository. */
  lemma ParseCanonical(pre: string, owner: string, repo: string, tail: string)
    requires 'g' !in pre
    requires owner != [] && repo != [] && '/' !in owner && '/' !in repo
    requires tail == [] || tail[0] == '/'
    ensures ParseGitHubUrl(pre + Host + owner + "/" + repo + tail) == Ok(GitHubRepo(owner, StripGit(repo)))
  {
    var url := pre + Host + owner + "/" + repo + tail;
    CanonicalShape(pre, owner, repo, tail);
    forall j: nat, o, q | j < |pre| ensures !ShapeAt(url, j, o, q) {
      NoHostInPrefix(url, pre, j, o, q);
    }
    ParseFirstShape(url, |pre|, owner, repo);
  }

  /** The parse reports the leftmost match. */
  lemma ParseFirstShape(url: string, i: nat, owner: string, repo: string)
    requires ShapeAt(url, i, owner, repo)
    requires forall j: nat, o, q :: j < i ==> !ShapeAt(url, j, o, q)
    ensures ParseGitHubUrl(url) == Ok(GitHubRepo(owner, StripGit(repo)))
  {
    var r := ParseGitHubUrl(url);
    assert r.Ok? by {
      assert ShapeAt(url, i, owner, repo);
    }
    var k: nat, p :| ShapeAt(url, k, r.value.owner, p) && r.value.repo == StripGit(p) &&
      forall j: nat, o, q :: j < k ==> !ShapeAt(url, j, o, q);
    LeftmostUnique(url, i, owner, repo, k, r.value.owner, p);
  }

  /** Two leftmost matches are the same match. */
  lemma LeftmostUnique(url: string, i: nat, o: string, q: string, k: nat, o': string, q': string)
    requires ShapeAt(url, i, o, q) && forall j: nat, o, q :: j < i ==> !ShapeAt(url, j, o, q)
    requires ShapeAt(url, k, o', q') && forall j: nat, o, q :: j < k ==> !ShapeAt(url, j, o, q)
    ensures i == k && o == o' && q == q'
  {
    ShapeRuns(url, i, o, q);
    ShapeRuns(url, k, o', q');
  }

  /** The host starts with `g`, so it cannot start inside a prefix free of `g`. */
  lemma NoHostInPrefix(u: string, pre: string, j: nat, o: string, q: string)
    requires pre <= u && 'g' !in pre && j < |pre|
    ensures !ShapeAt(u, j, o, q)
  {
    assert u[j] == pre[j];
  }

  /** The canonical URL has the shape at the end of its prefix. */
  lemma CanonicalShape(pre: string, owner: string, repo: string, tail: string)
    requires owner != [] && repo != [] && '/' !in owner && '/' !in repo
    requires tail == [] || tail[0] == '/'
    ensures ShapeAt(pre + Host + owner + "/" + repo + tail, |pre|, owner, repo)
  {
    var url := pre + Host + owner + "/" + repo + tail;
    var a := |pre| + |Host|;
    var b := a + |owner| + 1;
    assert url[|pre|..a] == Host;
    assert url[a..a + |owner|] == owner;
    assert url[a + |owner|] == '/';
    assert url[b..b + |repo|] == repo;
    assert b + |repo| < |url| ==> url[b + |repo|] == tail[0];
  }

  // ------------------------------------------------------------ tree filter

  /** One entry of the recursive git tree: its path and its `type`. */
  datatype TreeEntry = TreeEntry(path: string, kind: string)

  /** Line 54. */
  const FileLimit: nat := 500

  predicate Wanted(e: TreeEntry) {
    e.kind == "blob" && !IsBinaryPath(e.path)
  }

  /** Lines 49-54: the blobs whose paths are not binary, the first 500 of them. */
  function KeptEntries(tree: seq<TreeEntry>): (es: seq<TreeEntry>)
    ensures |es| <= FileLimit
    ensures forall i :: 0 <= i < |es| ==> Wanted(es[i]) && es[i] in tree
    ensures es <= Filter(tree, Wanted)
    ensures |es| == FileLimit || es == Filter(tree, Wanted)
  {
    var all := Filter(tree, Wanted);
    if |all| <= FileLimit then all else all[..FileLimit]
  }

  /** A tree of at most 500 wanted entries is kept whole. */
  lemma SmallTreeKept(tree: seq<TreeEntry>)
    requires |tree| <= FileLimit
    requires forall i :: 0 <= i < |tree| ==> Wanted(tree[i])
    ensures KeptEntries(tree) == tree
  {
    FilterAll(tree, Wanted);
  }

  /** Once 500 wanted entries have been seen, the rest of the tree is ignored. */
  lemma LimitIgnoresRest(front: seq<TreeEntry>, back: seq<TreeEntry>)
    requires |Filter(front, Wanted)| >= FileLimit
    ensures KeptEntries(front + back) == KeptEntries(front)
  {
    FilterAppend(front, back, Wanted);
    TakeAppend(Filter(front, Wanted), Filter(back, Wanted), FileLimit);
  }

  // -------------------------------------------------------------- records

  /** Line 69: the request succeeded and returned non-empty content. */
  predicate Fetched(fetch: string -> Option<string>, path: string) {
    fetch(path).Some? && fetch(path).value != ""
  }

  /** Lines 70-83: the record of one fetched file; the API gives no churn. */
  function FetchedRecord(path: string, text: string): (f: RawFile)
    ensures f.path == path && f.churn == 0 && f.loc == CountChar(text, '\n') + 1
    ensures f.extension == GetExtension(path) && f.snippet <= text
  {
    RawFile(path, LineCount(text), 0, GetExtension(path), Snippet(text))
  }

  /** A fetched record keeps the first fifty whole lines of the content as
      its snippet (line 73). */
  lemma FetchedSnippet(path: string, text: string)
    ensures FetchedRecord(path, text).snippet == Snippet(text)
  {
  }

  /** `f` is the record of a fetched file, built from its decoded content. */
  predicate Got(f: RawFile, fetch: string -> Option<string>, decode: string -> string) {
    Fetched(fetch, f.path) && f == FetchedRecord(f.path, decode(fetch(f.path).value))
  }

  /** Appending a fetched record keeps every record fetched. */
  lemma GotSnoc(files: seq<RawFile>, rec: RawFile, fetch: string -> Option<string>, decode: string -> string)
    requires forall k :: 0 <= k < |files| ==> Got(files[k], fetch, decode)
    requires Got(rec, fetch, decode)
    ensures forall k :: 0 <= k < |files + [rec]| ==> Got((files + [rec])[k], fetch, decode)
  {
    AllSnoc(files, rec, (f: RawFile) => Got(f, fetch, decode));
  }

  function EntryPaths(es: seq<TreeEntry>): (ps: seq<string>)
    ensures |ps| == |es|
    ensures forall i :: 0 <= i < |es| ==> ps[i] == es[i].path
  {
    seq(|es|, i requires 0 <= i < |es| => es[i].path)
  }

  /** Lines 57-90: one record per entry whose content could be fetched, in
      tree order; a failed request or empty content skips the entry. */
  method FetchFiles(entries: seq<TreeEntry>, fetch: string -> Option<string>, decode: string -> string)
    returns (files: seq<RawFile>)
    ensures PathsOf(files) == Filter(EntryPaths(entries), (p: string) => Fetched(fetch, p))
    ensures forall i :: 0 <= i < |files| ==> Got(files[i], fetch, decode)
  {
    files := FetchPaths(EntryPaths(entries), fetch, decode);
  }

  /** The loop of lines 57-90 over the entries' paths. */
  method FetchPaths(paths: seq<string>, fetch: string -> Option<string>, decode: string -> string)
    returns (files: seq<RawFile>)
    ensures PathsOf(files) == Filter(paths, (p: string) => Fetched(fetch, p))
    ensures forall i :: 0 <= i < |files| ==> Got(files[i], fetch, decode)
  {
    var keep := (p: string) => Fetched(fetch, p);
    files := [];
    var i := 0;
    assert paths[..0] == [];
    while i < |paths|
      invariant 0 <= i <= |paths|
      invariant PathsOf(files) == Filter(paths[..i], keep)
      invariant forall k :: 0 <= k < |files| ==> Got(files[k], fetch, decode)
    {
      var p := paths[i];
      var got := fetch(p);
      assert paths[..i + 1] == paths[..i] + [p];
      FilterSnoc(paths[..i], p, keep);
      assert keep(p) == Fetched(fetch, p);
      if got.Some? && got.value != "" {
        var rec := FetchedRecord(p, decode(got.value));
        assert Got(rec, fetch, decode);
        GotSnoc(files, rec, fetch, decode);
        PathsSnoc(files, rec);
        files := files + [rec];
      }
      i := i + 1;
    }
    assert paths[..i] == paths;
  }

  /** Lines 15-99 without the requests: the parsed URL and the records of the
      kept entries, or the URL error. */
  method FetchRepoFiles(url: string, tree: seq<TreeEntry>, fetch: string -> Option<string>, decode: string -> string)
    returns (r: Result<(GitHubRepo, seq<RawFile>), string>)
    ensures r.Err? <==> ParseGitHubUrl(url).Err?
    ensures r.Err? ==> r.error == InvalidUrl
    ensures r.Ok? ==> (r.value.0 == ParseGitHubUrl(url).value &&
      PathsOf(r.value.1) == Filter(EntryPaths(KeptEntries(tree)), (p: string) => Fetched(fetch, p)))
    ensures r.Ok? ==> |r.value.1| <= FileLimit
    ensures r.Ok? ==> forall i :: 0 <= i < |r.value.1| ==> Got(r.value.1[i], fetch, decode)
  {
    var parsed := ParseGitHubUrl(url);
    if parsed.Err? {
      return Err(parsed.error);
    }
    var kept := KeptEntries(tree);
    var files := FetchFiles(kept, fetch, decode);
    return Ok((parsed.value, files));
  }
}
