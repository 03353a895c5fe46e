/** The pure parts of `scanRepo` (src/lib/analysis/scanner.ts): the null-byte
    binary test, the `git ls-files` listing, the churn counter built from
    `git log --name-only`, and the per-file record. The git commands, the
    file reads, UTF-8 decoding and `path.extname` are parameters. */
module Scanner {
  import opened Wrappers
  import opened Strings
  import opened Seqs
  import opened Types
  import opened Lines

  newtype byte = b: int | 0 <= b < 256

  /** How many leading bytes the binary test looks at. */
  const BinaryProbe: nat := 8000

  /** Lines 13-17: a null byte among the first 8000 bytes marks a file binary. */
  function IsBinary(buf: seq<byte>): (b: bool)
    ensures b <==> exists i :: 0 <= i < |buf| && i < BinaryProbe && buf[i] == 0
  {
    var chunk := buf[..if |buf| < BinaryProbe then |buf| else BinaryProbe];
    assert forall i :: 0 <= i < |chunk| ==> chunk[i] == buf[i];
    0 in chunk
  }

  /** Whatever follows the first 8000 bytes does not change the verdict. */
  lemma BinaryLooksAtProbeOnly(buf: seq<byte>, rest: seq<byte>)
    requires |buf| >= BinaryProbe
    ensures IsBinary(buf + rest) == IsBinary(buf)
  {
    assert forall i :: 0 <= i < BinaryProbe ==> (buf + rest)[i] == buf[i];
  }

  /** `p.trim().length > 0`. */
  predicate NonBlank(p: string) {
    Trim(p) != ""
  }

  /** Line 24: the listing split on newlines, blank entries dropped. */
  function ListedPaths(listing: string): (ps: seq<string>)
    ensures forall i :: 0 <= i < |ps| ==> Trim(ps[i]) != "" && '\n' !in ps[i]
  {
    var pieces := Split(listing, '\n');
    FilterKeepsLines(pieces, NonBlank);
    Filter(pieces, NonBlank)
  }

  /** Filtering newline-free pieces leaves newline-free pieces. */
  lemma FilterKeepsLines(pieces: seq<string>, p: string -> bool)
    requires forall k :: 0 <= k < |pieces| ==> '\n' !in pieces[k]
    ensures forall i :: 0 <= i < |Filter(pieces, p)| ==> '\n' !in Filter(pieces, p)[i]
  {
    forall i | 0 <= i < |Filter(pieces, p)| ensures '\n' !in Filter(pieces, p)[i] {
      var x := Filter(pieces, p)[i];
      var k :| 0 <= k < |pieces| && pieces[k] == x;
    }
  }

  /** A listing as git prints it, one path per line and a final newline,
      gives the paths back in order. */
  lemma ListedPathsOfListing(paths: seq<string>)
    requires forall i :: 0 <= i < |paths| ==> Trim(paths[i]) != "" && '\n' !in paths[i]
    ensures ListedPaths(Join(paths, "\n") + "\n") == paths
  {
    if paths == [] {
      assert Join(paths, "\n") + "\n" == "\n";
      EmptyListing();
    } else {
      JoinSnoc(paths, "", "\n");
      assert Join(paths, "\n") + "\n" + "" == Join(paths, "\n") + "\n";
      ListingPieces(paths);
    }
  }

  /** An empty listing: a lone newline lists nothing. */
  lemma EmptyListing()
    ensures ListedPaths("\n") == []
  {
    assert Split("\n", '\n') == [""] + Split("", '\n');
    assert Filter([""], NonBlank) == [] + Filter([], NonBlank);
  }

  /** The pieces of a non-empty listing are the paths and a last empty piece. */
  lemma ListingPieces(paths: seq<string>)
    requires paths != []
    requires forall i :: 0 <= i < |paths| ==> Trim(paths[i]) != "" && '\n' !in paths[i]
    ensures ListedPaths(Join(paths + [""], "\n")) == paths
  {
    SplitListing(paths);
    DropLastBlank(paths);
  }

  lemma SplitListing(paths: seq<string>)
    requires forall i :: 0 <= i < |paths| ==> '\n' !in paths[i]
    ensures Split(Join(paths + [""], "\n"), '\n') == paths + [""]
  {
    assert forall i :: 0 <= i < |paths + [""]| ==> '\n' !in (paths + [""])[i];
    SplitJoin(paths + [""], '\n');
  }

  lemma DropLastBlank(paths: seq<string>)
    requires forall i :: 0 <= i < |paths| ==> NonBlank(paths[i])
    ensures Filter(paths + [""], NonBlank) == paths
  {
    FilterAppend(paths, [""], NonBlank);
    FilterAll(paths, NonBlank);
    assert Filter([""], NonBlank) == [] + Filter([], NonBlank);
  }

  /** The non-blank trimmed lines of the log, in order. */
  function LogPaths(log: string): seq<string> {
    Filter(Map(Split(log, '\n'), Trim), (t: string) => t != "")
  }

  /** Lines 30-36: the insertion-ordered counter of those lines. */
  function ChurnTable(log: string): (t: seq<(string, nat)>)
    ensures Distinct(Keys(t))
  {
    Tally(LogPaths(log))
  }

  /** Line 59: `churnMap.get(relPath) || 0`. */
  function Churn(log: string, path: string): nat {
    Lookup(ChurnTable(log), path)
  }

  /** The log lines that, trimmed, name `path` and are not blank. */
  function Mentions(lines: seq<string>, path: string): seq<string> {
    Filter(lines, (l: string) => Trim(l) != "" && Trim(l) == path)
  }

  /** The churn of a path is the number of non-blank log lines whose trimmed
      text is the path; a path the log never names has churn 0. */
  lemma ChurnCountsMentions(log: string, path: string)
    ensures Churn(log, path) == |Mentions(Split(log, '\n'), path)|
  {
    LookupTally(LogPaths(log), path);
    MentionsCount(Split(log, '\n'), path);
  }

  lemma {:induction false} MentionsCount(lines: seq<string>, path: string)
    ensures multiset(Filter(Map(lines, Trim), (t: string) => t != ""))[path] == |Mentions(lines, path)|
  {
    if lines != [] {
      var t := Trim(lines[0]);
      var rest := Map(lines[1..], Trim);
      var nonBlank := (t: string) => t != "";
      MentionsCount(lines[1..], path);
      MapCons(lines, Trim);
      FilterAppend([t], rest, nonBlank);
      assert Filter([t], nonBlank) == if t != "" then [t] else [];
      assert |Mentions(lines, path)| == (if t != "" && t == path then 1 else 0) + |Mentions(lines[1..], path)|;
    }
  }

  /** What the scan keeps: a file that could be read and is not binary. */
  predicate Kept(read: string -> Option<seq<byte>>, path: string) {
    read(path).Some? && !IsBinary(read(path).value)
  }

  /** Lines 51-62: the record of one kept file. */
  function Record(path: string, text: string, log: string, extname: string -> string): (f: RawFile)
    ensures f.path == path && f.extension == LowerStr(extname(path))
    ensures f.loc == CountChar(text, '\n') + 1 && f.snippet <= text
  {
    RawFile(path, LineCount(text), Churn(log, path), LowerStr(extname(path)), Snippet(text))
  }

  /** A record's churn counts the log lines that name its path. */
  lemma RecordChurn(path: string, text: string, log: string, extname: string -> string)
    ensures Record(path, text, log, extname).churn == |Mentions(Split(log, '\n'), path)|
  {
    ChurnCountsMentions(log, path);
  }

  /** A record keeps the first fifty whole lines of the text as its snippet. */
  lemma RecordSnippet(path: string, text: string, log: string, extname: string -> string)
    ensures Record(path, text, log, extname).snippet == Snippet(text)
  {
  }

  /** `f` is the record of a kept file, built from its decoded content. */
  predicate Scanned(f: RawFile, log: string, read: string -> Option<seq<byte>>,
                    decode: seq<byte> -> string, extname: string -> string) {
    Kept(read, f.path) && f == Record(f.path, decode(read(f.path).value), log, extname)
  }

  /** Lines 41-62: one record per path that can be read and is not binary,
      in the order given. */
  method ScanPaths(paths: seq<string>, log: string, read: string -> Option<seq<byte>>,
                   decode: seq<byte> -> string, extname: string -> string)
    returns (files: seq<RawFile>)
    ensures PathsOf(files) == Filter(paths, (p: string) => Kept(read, p))
    ensures forall i :: 0 <= i < |files| ==> Scanned(files[i], log, read, decode, extname)
  {
    var keep := (p: string) => Kept(read, p);
    files := [];
    var i := 0;
    assert paths[..0] == [];
    while i < |paths|
      invariant 0 <= i <= |paths|
      invariant PathsOf(files) == Filter(paths[..i], keep)
      invariant forall k :: 0 <= k < |files| ==> Scanned(files[k], log, read, decode, extname)
    {
      var p := paths[i];
      var buf := read(p);
      assert paths[..i + 1] == paths[..i] + [p];
      FilterSnoc(paths[..i], p, keep);
      assert keep(p) == Kept(read, p);
      if buf.Some? && !IsBinary(buf.value) {
        var rec := Record(p, decode(buf.value), log, extname);
        assert Scanned(rec, log, read, decode, extname);
        ScannedSnoc(files, rec, log, read, decode, extname);
        PathsSnoc(files, rec);
        files := files + [rec];
      }
      i := i + 1;
    }
    assert paths[..i] == paths;
  }

  /** Appending a scanned record keeps every record scanned. */
  lemma ScannedSnoc(files: seq<RawFile>, rec: RawFile, log: string, read: string -> Option<seq<byte>>,
                    decode: seq<byte> -> string, extname: string -> string)
    requires forall k :: 0 <= k < |files| ==> Scanned(files[k], log, read, decode, extname)
    requires Scanned(rec, log, read, decode, extname)
    ensures forall k :: 0 <= k < |files + [rec]| ==> Scanned((files + [rec])[k], log, read, decode, extname)
  {
    AllSnoc(files, rec, (f: RawFile) => Scanned(f, log, read, decode, extname));
  }

  /** Lines 19-70: the listed paths, scanned in listing order. */
  method ScanRepo(listing: string, log: string, read: string -> Option<seq<byte>>,
                  decode: seq<byte> -> string, extname: string -> string)
    returns (files: seq<RawFile>)
    ensures PathsOf(files) == Filter(ListedPaths(listing), (p: string) => Kept(read, p))
    ensures forall i :: 0 <= i < |files| ==> Scanned(files[i], log, read, decode, extname)
  {
    files := ScanPaths(ListedPaths(listing), log, read, decode, extname);
  }
}
