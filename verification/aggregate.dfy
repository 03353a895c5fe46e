/** The aggregation inside `analyzeRepository` (src/lib/analysis/index.ts):
    per-layer statistics, the total line count, the module rollup with its
    dominant layer and average churn, and the owner and name read off the
    repository URL. */
module Aggregate {
  import opened Strings
  import opened Seqs
  import opened Types

  // ---------------------------------------------------------------------
  // Layer statistics (lines 33-42)

  datatype Stat = Stat(count: nat, loc: nat)

  /** What the statistics loop leaves: the per-layer record, every layer
      present from the start, and the running line total. */
  datatype Overview = Overview(stats: PerLayer<Stat>, totalLoc: nat)

  /** Files of layer `l` (reference definition). */
  function LayerCount(files: seq<FileAnalysis>, l: Layer): nat {
    Sum(files, (f: FileAnalysis) => if f.layer == l then 1 else 0)
  }

  /** Lines in files of layer `l` (reference definition). */
  function LayerLoc(files: seq<FileAnalysis>, l: Layer): nat {
    Sum(files, (f: FileAnalysis) => if f.layer == l then f.loc else 0)
  }

  function TotalLoc(files: seq<FileAnalysis>): nat {
    Sum(files, (f: FileAnalysis) => f.loc)
  }

  /** One round of the loop: the file's layer gains one file and its lines. */
  function CountFile(o: Overview, f: FileAnalysis): Overview {
    var st := o.stats.Get(f.layer);
    Overview(o.stats.Set(f.layer, Stat(st.count + 1, st.loc + f.loc)), o.totalLoc + f.loc)
  }

  /** The statistics loop, file by file, from five zeroed entries. */
  function LayerStats(files: seq<FileAnalysis>): (o: Overview)
    ensures forall l :: o.stats.Get(l) == Stat(LayerCount(files, l), LayerLoc(files, l))
    ensures o.totalLoc == TotalLoc(files)
  {
    if files == [] then Overview(Everywhere(Stat(0, 0)), 0)
    else
      var init := files[..|files| - 1];
      var f := files[|files| - 1];
      assert files == init + [f];
      var o := LayerStats(init);
      forall l ensures LayerCount(files, l) == LayerCount(init, l) + (if f.layer == l then 1 else 0)
                 && LayerLoc(files, l) == LayerLoc(init, l) + (if f.layer == l then f.loc else 0)
      {
        SumAppend(init, [f], (f: FileAnalysis) => if f.layer == l then 1 else 0);
        SumAppend(init, [f], (f: FileAnalysis) => if f.layer == l then f.loc else 0);
      }
      SumAppend(init, [f], (f: FileAnalysis) => f.loc);
      CountFile(o, f)
  }

  /** Every file is counted in exactly one layer, and every line too. */
  lemma {:induction false} LayersAddUp(files: seq<FileAnalysis>)
    ensures LayerCount(files, Presentation) + LayerCount(files, Application) + LayerCount(files, Domain)
          + LayerCount(files, Infrastructure) + LayerCount(files, Tooling) == |files|
    ensures LayerLoc(files, Presentation) + LayerLoc(files, Application) + LayerLoc(files, Domain)
          + LayerLoc(files, Infrastructure) + LayerLoc(files, Tooling) == TotalLoc(files)
  {
    if files != [] {
      LayersAddUp(files[1..]);
    }
  }

  /** The statistics and the line total do not depend on the order of the files. */
  lemma LayerStatsOrderFree(a: seq<FileAnalysis>, b: seq<FileAnalysis>)
    requires multiset(a) == multiset(b)
    ensures LayerStats(a) == LayerStats(b)
  {
    forall l ensures LayerCount(a, l) == LayerCount(b, l) && LayerLoc(a, l) == LayerLoc(b, l) {
      SumPermutation(a, b, (f: FileAnalysis) => if f.layer == l then 1 else 0);
      SumPermutation(a, b, (f: FileAnalysis) => if f.layer == l then f.loc else 0);
    }
    SumPermutation(a, b, (f: FileAnalysis) => f.loc);
    var x, y := LayerStats(a).stats, LayerStats(b).stats;
    assert x.Get(Presentation) == y.Get(Presentation) && x.Get(Application) == y.Get(Application);
    assert x.Get(Domain) == y.Get(Domain) && x.Get(Infrastructure) == y.Get(Infrastructure);
    assert x.Get(Tooling) == y.Get(Tooling);
  }

  // ---------------------------------------------------------------------
  // Module rollup (lines 77-109)

  /** The running record the rollup keeps per module name. The layer counts
      are an insertion-ordered counter, as the object `layers` is. */
  datatype ModuleAcc = ModuleAcc(name: string, loc: nat, churnSum: nat, count: nat, layers: seq<(Layer, nat)>)

  function Names(ms: seq<ModuleAcc>): (ns: seq<string>)
    ensures |ns| == |ms|
    ensures forall i :: 0 <= i < |ms| ==> ns[i] == ms[i].name
  {
    seq(|ms|, i requires 0 <= i < |ms| => ms[i].name)
  }

  function ModulesOf(files: seq<FileAnalysis>): (ns: seq<string>)
    ensures |ns| == |files|
    ensures forall i :: 0 <= i < |files| ==> ns[i] == files[i].moduleName
  {
    seq(|files|, i requires 0 <= i < |files| => files[i].moduleName)
  }

  function LayersOf(files: seq<FileAnalysis>): (ls: seq<Layer>)
    ensures |ls| == |files|
    ensures forall i :: 0 <= i < |files| ==> ls[i] == files[i].layer
  {
    seq(|files|, i requires 0 <= i < |files| => files[i].layer)
  }

  /** The files of module `name`, in order (reference definition). */
  function Members(files: seq<FileAnalysis>, name: string): (g: seq<FileAnalysis>)
    ensures |g| <= |files|
  {
    if files == [] then []
    else (if files[0].moduleName == name then [files[0]] else []) + Members(files[1..], name)
  }

  /** `Members` is the filter on the module name: a file is a member exactly
      when it is one of the files and carries that name. */
  lemma {:induction false} MembersAre(files: seq<FileAnalysis>, name: string)
    ensures forall f :: f in Members(files, name) <==> f in files && f.moduleName == name
  {
    if files != [] {
      MembersAre(files[1..], name);
      assert files == [files[0]] + files[1..];
    }
  }

  lemma {:induction false} MembersAppend(a: seq<FileAnalysis>, b: seq<FileAnalysis>, name: string)
    ensures Members(a + b, name) == Members(a, name) + Members(b, name)
  {
    if a == [] {
      assert a + b == b;
    } else {
      var head := if a[0].moduleName == name then [a[0]] else [];
      assert (a + b)[0] == a[0];
      assert (a + b)[1..] == a[1..] + b;
      assert Members(a + b, name) == head + Members(a[1..] + b, name);
      assert Members(a, name) == head + Members(a[1..], name);
      MembersAppend(a[1..], b, name);
      assert head + (Members(a[1..], name) + Members(b, name)) == (head + Members(a[1..], name)) + Members(b, name);
    }
  }

  function ChurnTotal(files: seq<FileAnalysis>): nat {
    Sum(files, (f: FileAnalysis) => f.churn)
  }

  /** The record a module should end with: its files' lines, churn and
      number, and its layer counter (reference definition). */
  function Summary(name: string, g: seq<FileAnalysis>): ModuleAcc {
    ModuleAcc(name, TotalLoc(g), ChurnTotal(g), |g|, Tally(LayersOf(g)))
  }

  /** Lines 84-87 for one file of the module. */
  function Absorb(m: ModuleAcc, f: FileAnalysis): ModuleAcc
  {
    ModuleAcc(m.name, m.loc + f.loc, m.churnSum + f.churn, m.count + 1, Bump(m.layers, f.layer))
  }

  /** Lines 80-87: find the file's module, creating it empty when missing,
      and absorb the file into it. */
  function AddToModule(ms: seq<ModuleAcc>, f: FileAnalysis): (r: seq<ModuleAcc>)
    requires Distinct(Names(ms))
    ensures |r| == if f.moduleName in Names(ms) then |ms| else |ms| + 1
    ensures forall i :: 0 <= i < |ms| ==> r[i] == if ms[i].name == f.moduleName then Absorb(ms[i], f) else ms[i]
    ensures f.moduleName !in Names(ms) ==> r[|ms|] == Absorb(ModuleAcc(f.moduleName, 0, 0, 0, []), f)
  {
    if ms == [] then [Absorb(ModuleAcc(f.moduleName, 0, 0, 0, []), f)]
    else if ms[0].name == f.moduleName then
      assert forall i :: 1 <= i < |ms| ==> ms[i].name != f.moduleName by {
        forall i | 1 <= i < |ms| ensures ms[i].name != f.moduleName {
          assert Names(ms)[0] != Names(ms)[i];
        }
      }
      [Absorb(ms[0], f)] + ms[1..]
    else
      NamesTail(ms);
      var rest := AddToModule(ms[1..], f);
      var r := [ms[0]] + rest;
      assert forall i :: 1 <= i < |r| ==> r[i] == rest[i - 1];
      r
  }

  /** The names of all records but the first. */
  lemma NamesTail(ms: seq<ModuleAcc>)
    requires ms != [] && Distinct(Names(ms))
    ensures Distinct(Names(ms[1..]))
    ensures forall n :: n in Names(ms) <==> n == ms[0].name || n in Names(ms[1..])
  {
    assert Names(ms) == [ms[0].name] + Names(ms[1..]);
  }

  /** The names after one file: the same, or one more at the end when the
      file's module is new. */
  lemma AddToModuleNames(ms: seq<ModuleAcc>, f: FileAnalysis)
    requires Distinct(Names(ms))
    ensures Names(AddToModule(ms, f)) == if f.moduleName in Names(ms) then Names(ms) else Names(ms) + [f.moduleName]
  {
    var r := AddToModule(ms, f);
    var want := if f.moduleName in Names(ms) then Names(ms) else Names(ms) + [f.moduleName];
    forall i | 0 <= i < |r| ensures Names(r)[i] == want[i] {
      if i < |ms| {
        assert r[i].name == ms[i].name;
      }
    }
  }

  /** Membership in the reference grouping: no file of the name, no member. */
  lemma {:induction false} MembersNone(files: seq<FileAnalysis>, name: string)
    requires name !in ModulesOf(files)
    ensures Members(files, name) == []
  {
    if files != [] {
      assert ModulesOf(files)[0] == files[0].moduleName;
      assert ModulesOf(files[1..]) == ModulesOf(files)[1..];
      MembersNone(files[1..], name);
    }
  }

  /** Absorbing one more file of the module keeps the accumulator equal to
      the summary of the module's files so far. */
  lemma SummaryStep(g: seq<FileAnalysis>, f: FileAnalysis, name: string)
    ensures Distinct(Keys(Summary(name, g).layers))
    ensures Summary(name, g + [f]) == Absorb(Summary(name, g), f)
  {
    SumAppend(g, [f], (f: FileAnalysis) => f.loc);
    SumAppend(g, [f], (f: FileAnalysis) => f.churn);
    var ls := LayersOf(g + [f]);
    assert ls[..|ls| - 1] == LayersOf(g);
    assert ls[|ls| - 1] == f.layer;
  }

  /** Lines 79-88, file by file: one accumulator per module name, in the
      order the names first occur, each summarising exactly that module's files. */
  function Rollup(files: seq<FileAnalysis>): (ms: seq<ModuleAcc>)
    ensures Names(ms) == FirstSeen(ModulesOf(files))
    ensures forall i :: 0 <= i < |ms| ==> ms[i] == Summary(ms[i].name, Members(files, ms[i].name))
  {
    if files == [] then []
    else
      var init := files[..|files| - 1];
      var f := files[|files| - 1];
      assert files == init + [f];
      var ms := Rollup(init);
      RollupStep(init, f, ms);
      AddToModule(ms, f)
  }

  lemma RollupStep(init: seq<FileAnalysis>, f: FileAnalysis, ms: seq<ModuleAcc>)
    requires Names(ms) == FirstSeen(ModulesOf(init))
    requires forall i :: 0 <= i < |ms| ==> ms[i] == Summary(ms[i].name, Members(init, ms[i].name))
    ensures Distinct(Names(ms))
    ensures Names(AddToModule(ms, f)) == FirstSeen(ModulesOf(init + [f]))
    ensures forall i :: 0 <= i < |AddToModule(ms, f)| ==>
      AddToModule(ms, f)[i] == Summary(AddToModule(ms, f)[i].name, Members(init + [f], AddToModule(ms, f)[i].name))
  {
    var mods := ModulesOf(init + [f]);
    assert mods[..|mods| - 1] == ModulesOf(init);
    AddToModuleNames(ms, f);
    forall i | 0 <= i < |AddToModule(ms, f)|
      ensures AddToModule(ms, f)[i] == Summary(AddToModule(ms, f)[i].name, Members(init + [f], AddToModule(ms, f)[i].name))
    {
      RollupEntry(init, f, ms, i);
    }
  }

  /** Entry `i` after one more file: absorbed when it is the file's module,
      unchanged when it is another, and created when the module is new. */
  lemma RollupEntry(init: seq<FileAnalysis>, f: FileAnalysis, ms: seq<ModuleAcc>, i: nat)
    requires Names(ms) == FirstSeen(ModulesOf(init))
    requires forall j :: 0 <= j < |ms| ==> ms[j] == Summary(ms[j].name, Members(init, ms[j].name))
    requires Distinct(Names(ms))
    requires i < |AddToModule(ms, f)|
    ensures AddToModule(ms, f)[i] == Summary(AddToModule(ms, f)[i].name, Members(init + [f], AddToModule(ms, f)[i].name))
  {
    var r := AddToModule(ms, f);
    if i < |ms| {
      var m := ms[i];
      assert m == Summary(m.name, Members(init, m.name));
      assert r[i] == if m.name == f.moduleName then Absorb(m, f) else m;
      OldEntry(init, f, m, r[i]);
    } else {
      assert f.moduleName !in Names(ms) && i == |ms|;
      NewEntry(init, f, ms, r[i]);
    }
  }

  /** An entry that existed before the file: absorbed or left alone. */
  lemma OldEntry(init: seq<FileAnalysis>, f: FileAnalysis, m: ModuleAcc, e: ModuleAcc)
    requires m == Summary(m.name, Members(init, m.name))
    requires e == if m.name == f.moduleName then Absorb(m, f) else m
    ensures e == Summary(e.name, Members(init + [f], e.name))
  {
    if m.name == f.moduleName {
      EntryAbsorbed(init, f, m);
    } else {
      EntryUnchanged(init, f, m);
    }
  }

  /** The entry created for a module not seen before. */
  lemma NewEntry(init: seq<FileAnalysis>, f: FileAnalysis, ms: seq<ModuleAcc>, e: ModuleAcc)
    requires Names(ms) == FirstSeen(ModulesOf(init))
    requires f.moduleName !in Names(ms)
    requires e == Absorb(ModuleAcc(f.moduleName, 0, 0, 0, []), f)
    ensures e == Summary(e.name, Members(init + [f], e.name))
  {
    FirstSeenMembers(ModulesOf(init), f.moduleName);
    EntryCreated(init, f);
  }

  /** Another module's record is not touched by the file. */
  lemma EntryUnchanged(init: seq<FileAnalysis>, f: FileAnalysis, m: ModuleAcc)
    requires m == Summary(m.name, Members(init, m.name))
    requires m.name != f.moduleName
    ensures m == Summary(m.name, Members(init + [f], m.name))
  {
    MembersAppend(init, [f], m.name);
    assert Members([f], m.name) == [];
    assert Members(init, m.name) + [] == Members(init, m.name);
  }

  /** The file's module absorbs it. */
  lemma EntryAbsorbed(init: seq<FileAnalysis>, f: FileAnalysis, m: ModuleAcc)
    requires m == Summary(m.name, Members(init, m.name))
    requires m.name == f.moduleName
    ensures Distinct(Keys(m.layers))
    ensures Absorb(m, f) == Summary(m.name, Members(init + [f], m.name))
  {
    MembersAppend(init, [f], m.name);
    assert Members([f], m.name) == [f];
    SummaryStep(Members(init, m.name), f, m.name);
  }

  /** A module seen for the first time starts from zero and absorbs the file. */
  lemma EntryCreated(init: seq<FileAnalysis>, f: FileAnalysis)
    requires f.moduleName !in ModulesOf(init)
    ensures Absorb(ModuleAcc(f.moduleName, 0, 0, 0, []), f) == Summary(f.moduleName, Members(init + [f], f.moduleName))
  {
    var n := f.moduleName;
    MembersNone(init, n);
    MembersAppend(init, [f], n);
    assert Members([f], n) == [f];
    assert [] + [f] == [f];
    SummaryStep([], f, n);
    assert Summary(n, []) == ModuleAcc(n, 0, 0, 0, []);
  }

  /** Lines 92-99: the layer counted most often in the module, the first one
      counted on a tie, and Domain while nothing beats 0. */
  function Dominant(layers: seq<(Layer, nat)>): (d: Layer)
    ensures (forall i :: 0 <= i < |layers| ==> layers[i].1 >= 1) && layers != [] ==>
      exists k :: 0 <= k < |layers| && layers[k].0 == d
        && (forall i :: 0 <= i < |layers| ==> layers[i].1 <= layers[k].1)
        && (forall i :: 0 <= i < k ==> layers[i].1 < layers[k].1)
    ensures layers == [] ==> d == Domain
  {
    var r := FirstMax(layers, Domain, 0);
    r.0
  }

  /** Over the counter of a non-empty layer sequence, the dominant layer
      occurs in it, occurs at least as often as any layer, and among the
      layers that occur as often it is the one that appears first. */
  lemma DominantOfTally(ls: seq<Layer>)
    requires ls != []
    ensures Dominant(Tally(ls)) in ls
    ensures forall l :: multiset(ls)[l] <= multiset(ls)[Dominant(Tally(ls))]
    ensures forall l :: l in ls && multiset(ls)[l] == multiset(ls)[Dominant(Tally(ls))] ==>
      IndexOf(ls, Dominant(Tally(ls))) <= IndexOf(ls, l)
  {
    TallyMax(ls, Domain);
  }

  /** `stats.count > 0 ? stats.churnSum / stats.count : 0`. */
  function ChurnAvg(m: ModuleAcc): (a: real)
    ensures m.count > 0 ==> a * (m.count as real) == m.churnSum as real
    ensures m.count == 0 ==> a == 0.0
  {
    if m.count > 0 then m.churnSum as real / m.count as real else 0.0
  }

  /** The constant the code stores as every module's average confidence. */
  const ConfidenceAvg: real := 0.8

  /** One row of the module index. */
  datatype ModuleEntry = ModuleEntry(name: string, layer: Layer, loc: nat, churnAvg: real, confidenceAvg: real)

  function Entry(m: ModuleAcc): ModuleEntry {
    ModuleEntry(m.name, Dominant(m.layers), m.loc, ChurnAvg(m), ConfidenceAvg)
  }

  /** Lines 90-109: one entry per module, in first-seen order. */
  function ModuleEntries(files: seq<FileAnalysis>): (es: seq<ModuleEntry>)
    ensures |es| == |FirstSeen(ModulesOf(files))|
    ensures forall i :: 0 <= i < |es| ==> es[i].name == FirstSeen(ModulesOf(files))[i]
  {
    Map(Rollup(files), Entry)
  }

  /** A name that occurs among the files has at least one member. */
  lemma {:induction false} MembersSome(files: seq<FileAnalysis>, name: string)
    requires name in ModulesOf(files)
    ensures |Members(files, name)| >= 1
  {
    if files[0].moduleName != name {
      assert ModulesOf(files) == [files[0].moduleName] + ModulesOf(files[1..]);
      MembersSome(files[1..], name);
    }
  }

  /** Entry `i` is built from the summary of its module's files, of which
      there is at least one. */
  lemma EntryOfModule(files: seq<FileAnalysis>, i: nat)
    requires i < |ModuleEntries(files)|
    ensures var e := ModuleEntries(files)[i];
      e == Entry(Summary(e.name, Members(files, e.name))) && |Members(files, e.name)| >= 1
  {
    var ms := Rollup(files);
    var m := ms[i];
    assert ModuleEntries(files)[i] == Entry(m);
    assert Names(ms)[i] == m.name;
    FirstSeenMembers(ModulesOf(files), m.name);
    MembersSome(files, m.name);
  }

  /** Entry `i` carries its module's lines, and its mean churn is the
      module's churn over its number of files. */
  lemma ModuleEntrySums(files: seq<FileAnalysis>, i: nat)
    requires i < |ModuleEntries(files)|
    ensures var e := ModuleEntries(files)[i];
      var g := Members(files, e.name);
      && |g| >= 1
      && e.loc == TotalLoc(g)
      && e.churnAvg == ChurnTotal(g) as real / |g| as real
      && e.confidenceAvg == 0.8
  {
    EntryOfModule(files, i);
  }

  /** Entry `i`'s layer is the most frequent among its module's files, and
      on a tie the one met first among them. */
  lemma ModuleEntryLayer(files: seq<FileAnalysis>, i: nat)
    requires i < |ModuleEntries(files)|
    ensures var e := ModuleEntries(files)[i];
      var ls := LayersOf(Members(files, e.name));
      && e.layer in ls
      && (forall l :: multiset(ls)[l] <= multiset(ls)[e.layer])
      && (forall l :: l in ls && multiset(ls)[l] == multiset(ls)[e.layer] ==> IndexOf(ls, e.layer) <= IndexOf(ls, l))
  {
    EntryOfModule(files, i);
    var e := ModuleEntries(files)[i];
    DominantOfTally(LayersOf(Members(files, e.name)));
  }

  /** Two files of one module with different layers: each layer occurs
      once, so the module takes the layer of the file that comes first. */
  lemma FirstLayerWinsTie(f: FileAnalysis, g: FileAnalysis)
    requires f.moduleName == g.moduleName && f.layer != g.layer
    ensures ModuleEntries([f, g])[0].layer == f.layer
  {
    var ls := [f.layer, g.layer];
    OneModule(f, g);
    assert multiset(ls)[f.layer] == 1 == multiset(ls)[g.layer];
    ModuleEntryLayer([f, g], 0);
    assert IndexOf(ls, f.layer) == 0;
  }

  /** Two files of one module form one module of both. */
  lemma OneModule(f: FileAnalysis, g: FileAnalysis)
    requires f.moduleName == g.moduleName
    ensures |ModuleEntries([f, g])| == 1 && ModuleEntries([f, g])[0].name == f.moduleName
    ensures LayersOf(Members([f, g], f.moduleName)) == [f.layer, g.layer]
  {
    var n := f.moduleName;
    assert ModulesOf([f, g]) == [n, n];
    assert [n, n][..1] == [n] && [n][..0] == [];
    assert FirstSeen([n]) == [n];
    assert FirstSeen([n, n]) == [n];
    assert [f, g][1..] == [g];
    assert Members([f, g], n) == [f, g];
  }

  /** The dominant layer, unlike the sums, depends on the order of the files. */
  lemma DominantDependsOnOrder(f: FileAnalysis, g: FileAnalysis)
    requires f.moduleName == g.moduleName
    requires f.layer == Presentation && g.layer == Domain
    ensures ModuleEntries([f, g])[0].layer == Presentation
    ensures ModuleEntries([g, f])[0].layer == Domain
  {
    FirstLayerWinsTie(f, g);
    FirstLayerWinsTie(g, f);
  }

  function ModuleCount(ms: seq<ModuleAcc>): nat {
    Sum(ms, (m: ModuleAcc) => m.count)
  }

  function ModuleLoc(ms: seq<ModuleAcc>): nat {
    Sum(ms, (m: ModuleAcc) => m.loc)
  }

  /** One file adds one to the module counts and its lines to the module lines. */
  lemma {:induction false} AddToModuleTotals(ms: seq<ModuleAcc>, f: FileAnalysis)
    requires Distinct(Names(ms))
    ensures ModuleCount(AddToModule(ms, f)) == ModuleCount(ms) + 1
    ensures ModuleLoc(AddToModule(ms, f)) == ModuleLoc(ms) + f.loc
  {
    var r := AddToModule(ms, f);
    if ms == [] {
      assert r[0] == Absorb(ModuleAcc(f.moduleName, 0, 0, 0, []), f) && r[1..] == [];
    } else if ms[0].name == f.moduleName {
      assert r[0] == Absorb(ms[0], f) && r[1..] == ms[1..];
    } else {
      NamesTail(ms);
      assert r[0] == ms[0] && r[1..] == AddToModule(ms[1..], f);
      AddToModuleTotals(ms[1..], f);
    }
  }

  /** Module counts add up to the number of files, module lines to the total. */
  lemma {:induction false} RollupTotals(files: seq<FileAnalysis>)
    ensures ModuleCount(Rollup(files)) == |files|
    ensures ModuleLoc(Rollup(files)) == TotalLoc(files)
  {
    if files != [] {
      var init := files[..|files| - 1];
      var f := files[|files| - 1];
      assert files == init + [f];
      RollupTotals(init);
      RollupStep(init, f, Rollup(init));
      AddToModuleTotals(Rollup(init), f);
      SumAppend(init, [f], (f: FileAnalysis) => f.loc);
    }
  }

  /** The entries' lines add up to the repository's total. */
  lemma EntriesCoverLoc(files: seq<FileAnalysis>)
    ensures Sum(ModuleEntries(files), (e: ModuleEntry) => e.loc) == TotalLoc(files)
  {
    RollupTotals(files);
    EntryLocs(Rollup(files));
  }

  lemma {:induction false} EntryLocs(ms: seq<ModuleAcc>)
    ensures Sum(Map(ms, Entry), (e: ModuleEntry) => e.loc) == ModuleLoc(ms)
  {
    if ms != [] {
      EntryLocs(ms[1..]);
      assert Map(ms, Entry)[1..] == Map(ms[1..], Entry);
    }
  }
}
