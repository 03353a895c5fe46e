/** The owner and name `analyzeRepository` reads off the repository URL
    (src/lib/analysis/index.ts, lines 45-47). */
module RepoUrl {
  import opened Strings

  datatype RepoName = RepoName(owner: string, name: string)

  /** `last.replace('.git', '')`: drops the first `.git` and keeps the
      rest, so it adds no character, and leaves a name without `.git` alone. */
  function CleanName(last: string): (n: string)
    ensures forall c :: c in n ==> c in last
    ensures !Contains(last, ".git") ==> n == last
  {
    ReplaceFirst(last, ".git", "")
  }

  /** `parts[parts.length - 2] || 'unknown'`. */
  function OwnerOf(parts: seq<string>): (o: string)
    ensures o != []
    ensures (forall k :: 0 <= k < |parts| ==> '/' !in parts[k]) ==> '/' !in o
  {
    if |parts| >= 2 && parts[|parts| - 2] != "" then parts[|parts| - 2] else "unknown"
  }

  /** The last `/`-piece of the URL with its first `.git` removed, and the
      piece before it, or "unknown" when there is none or it is empty. */
  function RepoNameOf(url: string): (id: RepoName)
    ensures id.owner != [] && '/' !in id.owner && '/' !in id.name
    ensures '/' !in url ==> id.owner == "unknown"
  {
    var parts := Split(url, '/');
    SplitCount(url, '/');
    RepoName(OwnerOf(parts), CleanName(parts[|parts| - 1]))
  }

  /** Every piece of `front + [x, y]` is free of `/` when each part is. */
  lemma PiecesWithoutSlash(front: seq<string>, x: string, y: string)
    requires forall k :: 0 <= k < |front| ==> '/' !in front[k]
    requires '/' !in x && '/' !in y
    ensures forall k :: 0 <= k < |front + [x, y]| ==> '/' !in (front + [x, y])[k]
  {
    forall k | 0 <= k < |front + [x, y]| ensures '/' !in (front + [x, y])[k] {
      if k < |front| {
        assert (front + [x, y])[k] == front[k];
      }
    }
  }

  /** The pieces of a joined URL come back: the owner is the second-to-last
      piece and the name is read off the last one. */
  lemma RepoNameOfPieces(front: seq<string>, owner: string, last: string)
    requires forall k :: 0 <= k < |front| ==> '/' !in front[k]
    requires owner != [] && '/' !in owner && '/' !in last
    ensures RepoNameOf(Join(front + [owner, last], "/")) == RepoName(owner, CleanName(last))
  {
    var parts := front + [owner, last];
    PiecesWithoutSlash(front, owner, last);
    SplitJoin(parts, '/');
    assert parts[|parts| - 2] == owner && parts[|parts| - 1] == last;
  }

  /** Reading the URL back: for `…/owner/name` the owner and the name come
      back, whatever precedes them. */
  lemma RepoNameOfJoin(front: seq<string>, owner: string, name: string)
    requires forall k :: 0 <= k < |front| ==> '/' !in front[k]
    requires owner != [] && '/' !in owner
    requires '/' !in name && !Contains(name, ".git")
    ensures RepoNameOf(Join(front + [owner, name], "/")) == RepoName(owner, name)
  {
    RepoNameOfPieces(front, owner, name);
  }

  /** The same for `…/owner/name.git`: the suffix is dropped from the name. */
  lemma RepoNameOfJoinGit(front: seq<string>, owner: string, name: string)
    requires forall k :: 0 <= k < |front| ==> '/' !in front[k]
    requires owner != [] && '/' !in owner
    requires '/' !in name && !Contains(name, ".git")
    ensures RepoNameOf(Join(front + [owner, name + ".git"], "/")) == RepoName(owner, name)
  {
    assert '/' !in name + ".git";
    RepoNameOfPieces(front, owner, name + ".git");
    StripGitSuffix(name);
  }

  /** Not only a suffix: the first `.git` anywhere in the last piece goes,
      so `my.github.io` names the repository `myhub.io`. */
  lemma NameLosesInnerGit(a: string, b: string)
    requires !Contains(a, ".git")
    ensures CleanName(a + ".git" + b) == a + b
  {
    ReplaceFirstGit(a, b);
  }
}
