/** The module-name resolver `getModuleName` of src/lib/analysis/classifier.ts:
    a walk over the `/`-separated segments of a path in four phases. */
module ModuleNames {
  import opened Strings

  /** Structural roots dropped entirely (phase 1). */
  const SkipRoots: set<string> := {"src", "source", "dist", "build", "out", ".next", "public"}

  /** Generic roots drilled through when a sub-directory follows (phase 2). */
  const PassthroughRoots: set<string> :=
    {"app", "lib", "pkg", "internal", "cmd", "components", "utils", "common", "shared", "ui", "services", "features"}

  /** Roots kept together with their child directory (phase 3). */
  const GrouperRoots: set<string> := {"agents", "packages", "modules", "scripts", "plugins", "apps", "examples"}

  const RootName := "(root)"

  /** Where the walk stops: the `(root)` sentinel, a grouper and its child, the
      segment it stands on, or the parent of the file name. */
  datatype Outcome = Root | Grouped(at: nat) | Segment(at: nat) | Parent(parentAt: int)

  /** Phase 1: the first index from `p` on whose segment is not a skip root. */
  function SkipFrom(parts: seq<string>, p: nat): (q: nat)
    requires p <= |parts|
    ensures p <= q <= |parts|
    ensures forall i :: p <= i < q ==> parts[i] in SkipRoots
    ensures q < |parts| ==> parts[q] !in SkipRoots
    decreases |parts| - p
  {
    if p < |parts| && parts[p] in SkipRoots then SkipFrom(parts, p + 1) else p
  }

  /** Phase 2: step over passthrough roots while a directory and a file name
      still follow. */
  function DrillFrom(parts: seq<string>, p: nat): (q: nat)
    requires p < |parts|
    ensures p <= q < |parts|
    ensures q == p || q <= |parts| - 2
    ensures forall i :: p <= i < q ==> parts[i] in PassthroughRoots
    ensures !(q < |parts| - 2 && parts[q] in PassthroughRoots)
    decreases |parts| - p
  {
    if p < |parts| - 2 && parts[p] in PassthroughRoots then DrillFrom(parts, p + 1) else p
  }

  /** The walk of `getModuleName` over the segments of a path. A `Root` result
      happens exactly when every directory segment is a skip root; otherwise
      the name comes from a directory, never from the file name; and the
      parent-directory answer of phase 4 is never given. */
  function Walk(parts: seq<string>): (o: Outcome)
    requires |parts| >= 1
    ensures o.Root? <==> AllSkip(parts)
    ensures o.Grouped? ==> o.at + 2 < |parts| && parts[o.at] in GrouperRoots
    ensures o.Segment? ==> o.at < |parts| - 1
    ensures !o.Parent?
    ensures (o.Grouped? || o.Segment?) ==>
              forall i :: 0 <= i < o.at ==> parts[i] in SkipRoots || parts[i] in PassthroughRoots
  {
    var p := SkipFrom(parts, 0);
    if p >= |parts| then Root
    else
      var q := DrillFrom(parts, p);
      if parts[q] in GrouperRoots && q < |parts| - 2 then Grouped(q)
      else if q == |parts| - 1 then
        if q > 0 then
          var parent := parts[q - 1];
          if parent in SkipRoots || parent in PassthroughRoots then Root
          else Parent(q - 1)
        else Root
      else Segment(q)
  }

  /** The string the walk returns. */
  function Render(parts: seq<string>, o: Outcome): string
    requires o.Grouped? ==> o.at + 1 < |parts|
    requires o.Segment? ==> o.at < |parts|
    requires o.Parent? ==> 0 <= o.parentAt < |parts|
  {
    match o
    case Root => RootName
    case Grouped(i) => parts[i] + "/" + parts[i + 1]
    case Segment(i) => parts[i]
    case Parent(i) => parts[i]
  }

  /** Every directory segment (all but the last) is a skip root. */
  predicate AllSkip(parts: seq<string>) {
    forall i :: 0 <= i < |parts| - 1 ==> parts[i] in SkipRoots
  }

  /** `name` is a grouper directory with its child directory, or one directory
      segment. */
  predicate DirectoryName(parts: seq<string>, name: string) {
    || (exists i :: 0 <= i < |parts| - 2 && parts[i] in GrouperRoots && name == parts[i] + "/" + parts[i + 1])
    || (exists i :: 0 <= i < |parts| - 1 && name == parts[i])
  }

  /** `getModuleName(filePath)`: `(root)` exactly when no directory segment
      survives the skip phase, else a directory name. */
  function ModuleName(path: string): (name: string)
    ensures AllSkip(Split(path, '/')) ==> name == RootName
    ensures !AllSkip(Split(path, '/')) ==> DirectoryName(Split(path, '/'), name)
    ensures (forall i :: 0 <= i < |Split(path, '/')| ==> Split(path, '/')[i] != "") ==> name != ""
  {
    var parts := Split(path, '/');
    var o := Walk(parts);
    assert o.Grouped? ==> parts[o.at] + "/" + parts[o.at + 1] == Render(parts, o);
    Render(parts, o)
  }

  /** A grouper root at the top of a path with a directory below it names
      the module together with that directory. */
  lemma LeadingGrouper(parts: seq<string>)
    requires |parts| >= 3 && forall k :: 0 <= k < |parts| ==> '/' !in parts[k]
    requires parts[0] !in SkipRoots && parts[0] !in PassthroughRoots && parts[0] in GrouperRoots
    ensures ModuleName(Join(parts, "/")) == parts[0] + "/" + parts[1]
  {
    SplitJoin(parts, '/');
    assert Split(Join(parts, "/"), '/') == parts;
    assert SkipFrom(parts, 0) == 0 && DrillFrom(parts, 0) == 0;
  }

  // Worked examples, traced through the code; each path is given by its
  // `/`-separated segments.

  /** `lib/utils.ts`: a passthrough root directly above the file name is kept. */
  lemma ExampleLibFile(parts: seq<string>)
    requires parts == ["lib", "utils.ts"]
    ensures ModuleName(Join(parts, "/")) == "lib"
  {
    SplitJoin(parts, '/');
  }

  /** `lib/analysis/scanner.ts`: a passthrough root with a directory below it is drilled through. */
  lemma ExampleLibNested(parts: seq<string>)
    requires parts == ["lib", "analysis", "scanner.ts"]
    ensures ModuleName(Join(parts, "/")) == "analysis"
  {
    SplitJoin(parts, '/');
  }

  /** `app/page.tsx`: `app` directly above the file name is kept, as the comment at line 213 says. */
  lemma ExampleAppPage(parts: seq<string>)
    requires parts == ["app", "page.tsx"]
    ensures ModuleName(Join(parts, "/")) == "app"
  {
    SplitJoin(parts, '/');
  }

  /** `agents/application/trade.py`: a grouper keeps its child directory. */
  lemma ExampleAgents(parts: seq<string>)
    requires parts == ["agents", "application", "trade.py"]
    ensures ModuleName(Join(parts, "/")) == "agents" + "/" + "application"
  {
    assert "agents" !in SkipRoots && "agents" !in PassthroughRoots && "agents" in GrouperRoots;
    LeadingGrouper(parts);
  }

  /** `packages/core/index.ts`: a grouper keeps its child directory. */
  lemma ExamplePackages(parts: seq<string>)
    requires parts == ["packages", "core", "index.ts"]
    ensures ModuleName(Join(parts, "/")) == "packages" + "/" + "core"
  {
    assert "packages" !in SkipRoots && "packages" !in PassthroughRoots && "packages" in GrouperRoots;
    LeadingGrouper(parts);
  }

  /** `src/lib/analysis/scanner.ts`: skip roots go first, then passthrough roots. */
  lemma ExampleSrcLib(parts: seq<string>)
    requires parts == ["src", "lib", "analysis", "scanner.ts"]
    ensures ModuleName(Join(parts, "/")) == "analysis"
  {
    SplitJoin(parts, '/');
    assert SkipFrom(parts, 0) == 1 by {
      assert "src" in SkipRoots && "lib" !in SkipRoots;
    }
    assert DrillFrom(parts, 1) == 2 by {
      assert "lib" in PassthroughRoots && "analysis" !in PassthroughRoots;
    }
    assert "analysis" !in GrouperRoots;
  }

  /** `README.md`: a file at the top level has no module. */
  lemma ExampleTopLevel(parts: seq<string>)
    requires parts == ["README.md"]
    ensures ModuleName(Join(parts, "/")) == RootName
  {
    SplitJoin(parts, '/');
  }

  /** `app/api/users`: the walk gives `api`, not the `api/users` the comment at line 214 claims. */
  lemma ExampleAppApi(parts: seq<string>)
    requires parts == ["app", "api", "users"]
    ensures ModuleName(Join(parts, "/")) == "api"
  {
    SplitJoin(parts, '/');
  }
}
