/** `classifyFile` of src/lib/analysis/classifier.ts: score every rule against
    one file, pick the winning layer, fall back on the extension when nothing
    scored, and pick the subcategory among the winning layer's rules. The
    classifier is stated for any rule table; `ClassifyFile` is the one the
    repository uses. */
module Classifier {
  import opened Wrappers
  import opened Strings
  import opened Seqs
  import opened Types
  import opened Patterns
  import opened Rules
  import opened ModuleNames

  /** The rules that match `file`, in table order (reference definition). */
  function Matched(rules: seq<Rule>, file: RawFile): (m: seq<Rule>)
    ensures |m| <= |rules|
    ensures forall i :: 0 <= i < |m| ==> Matches(m[i], file)
  {
    if rules == [] then []
    else (if Matches(rules[0], file) then [rules[0]] else []) + Matched(rules[1..], file)
  }

  lemma {:induction false} MatchedAppend(a: seq<Rule>, b: seq<Rule>, file: RawFile)
    ensures Matched(a + b, file) == Matched(a, file) + Matched(b, file)
  {
    if a == [] {
      assert a + b == b;
    } else {
      assert (a + b)[1..] == a[1..] + b;
      MatchedAppend(a[1..], b, file);
    }
  }

  /** A rule matches and is in the table exactly when it is among the matched rules. */
  lemma {:induction false} MatchedMembers(rules: seq<Rule>, file: RawFile, r: Rule)
    ensures r in Matched(rules, file) <==> r in rules && Matches(r, file)
  {
    if rules != [] {
      MatchedMembers(rules[1..], file, r);
      assert rules == [rules[0]] + rules[1..];
    }
  }

  /** The evidence a matching rule leaves. */
  function SignalOf(r: Rule): Signal {
    Signal(r.id, r.score, "Matched " + r.id)
  }

  /** The total score of the rules of layer `l` among `rs` (reference definition). */
  function LayerSum(rs: seq<Rule>, l: Layer): nat {
    if rs == [] then 0 else (if rs[0].layer == l then rs[0].score else 0) + LayerSum(rs[1..], l)
  }

  lemma {:induction false} LayerSumAppend(a: seq<Rule>, b: seq<Rule>, l: Layer)
    ensures LayerSum(a + b, l) == LayerSum(a, l) + LayerSum(b, l)
  {
    if a == [] {
      assert a + b == b;
    } else {
      assert (a + b)[1..] == a[1..] + b;
      LayerSumAppend(a[1..], b, l);
    }
  }

  /** The sum of all scores of `rs`. */
  function ScoreSum(rs: seq<Rule>): nat {
    if rs == [] then 0 else rs[0].score + ScoreSum(rs[1..])
  }

  /** The scores of the rules split by layer add up to their total. */
  lemma {:induction false} LayerSumsAddUp(rs: seq<Rule>)
    ensures LayerSum(rs, Presentation) + LayerSum(rs, Application) + LayerSum(rs, Domain)
          + LayerSum(rs, Infrastructure) + LayerSum(rs, Tooling) == ScoreSum(rs)
  {
    if rs != [] {
      LayerSumsAddUp(rs[1..]);
    }
  }

  /** With positive scores, a layer scores exactly when one of its rules matched. */
  lemma {:induction false} LayerSumPositive(rs: seq<Rule>, l: Layer)
    requires PositiveScores(rs)
    ensures LayerSum(rs, l) > 0 <==> exists i :: 0 <= i < |rs| && rs[i].layer == l
  {
    if rs != [] {
      LayerSumPositive(rs[1..], l);
      if exists i :: 0 <= i < |rs[1..]| && rs[1..][i].layer == l {
        var i :| 0 <= i < |rs[1..]| && rs[1..][i].layer == l;
        assert rs[i + 1].layer == l;
      }
      if exists i :: 0 <= i < |rs| && rs[i].layer == l {
        var i :| 0 <= i < |rs| && rs[i].layer == l;
        if i > 0 {
          assert rs[1..][i - 1].layer == l;
        }
      }
    }
  }

  /** What the first loop leaves: the per-layer scores and the signals. */
  datatype Evaluation = Evaluation(scores: PerLayer<nat>, signals: seq<Signal>)

  /** One round of the first loop: a matching rule adds its score to its
      layer and appends its signal. */
  function Step(e: Evaluation, r: Rule, file: RawFile): Evaluation {
    if Matches(r, file) then
      Evaluation(e.scores.Set(r.layer, e.scores.Get(r.layer) + r.score), e.signals + [SignalOf(r)])
    else e
  }

  /** The first loop of `classifyFile`, rule by rule. */
  function Evaluate(rules: seq<Rule>, file: RawFile): (e: Evaluation)
    ensures e.signals == Map(Matched(rules, file), SignalOf)
    ensures forall l :: e.scores.Get(l) == LayerSum(Matched(rules, file), l)
  {
    if rules == [] then Evaluation(Everywhere(0), [])
    else
      var init := rules[..|rules| - 1];
      var r := rules[|rules| - 1];
      assert rules == init + [r];
      var e := Evaluate(init, file);
      StepKeepsScores(init, r, file, e);
      Step(e, r, file)
  }

  /** A round of the loop extends what the rounds before it computed. */
  lemma StepKeepsScores(init: seq<Rule>, r: Rule, file: RawFile, e: Evaluation)
    requires e.signals == Map(Matched(init, file), SignalOf)
    requires forall l :: e.scores.Get(l) == LayerSum(Matched(init, file), l)
    ensures Step(e, r, file).signals == Map(Matched(init + [r], file), SignalOf)
    ensures forall l :: Step(e, r, file).scores.Get(l) == LayerSum(Matched(init + [r], file), l)
  {
    var m := Matched(init, file);
    var last := Matched([r], file);
    MatchedAppend(init, [r], file);
    assert last == if Matches(r, file) then [r] else [];
    MapAppend(m, last, SignalOf);
    forall l ensures Step(e, r, file).scores.Get(l) == LayerSum(m + last, l) {
      LayerSumAppend(m, last, l);
      if Matches(r, file) {
        assert LayerSum(last, l) == if r.layer == l then r.score else 0 by {
          assert last[1..] == [];
        }
      }
    }
  }

  /** The signals' strengths add up to the total score of the layers. */
  lemma {:induction false} StrengthsAddUp(rules: seq<Rule>, file: RawFile)
    ensures Sum(Evaluate(rules, file).signals, (s: Signal) => s.strength)
         == ScoreSum(Matched(rules, file))
  {
    StrengthsOfMapped(Matched(rules, file));
  }

  lemma {:induction false} StrengthsOfMapped(rs: seq<Rule>)
    ensures Sum(Map(rs, SignalOf), (s: Signal) => s.strength) == ScoreSum(rs)
  {
    if rs != [] {
      StrengthsOfMapped(rs[1..]);
      assert Map(rs, SignalOf)[1..] == Map(rs[1..], SignalOf);
    }
  }

  /** The score record in `Object.entries` order, which is declaration order. */
  function Entries(scores: PerLayer<nat>): (es: seq<(Layer, int)>)
    ensures |es| == |LayerOrder|
    ensures forall i :: 0 <= i < |es| ==> es[i] == (LayerOrder[i], scores.Get(LayerOrder[i]) as int)
  {
    [(Presentation, scores.presentation), (Application, scores.application), (Domain, scores.domain),
     (Infrastructure, scores.infrastructure), (Tooling, scores.tooling)]
  }

  /** What the maximum scan over the entries says about the layers. */
  lemma WinnerFacts(scores: PerLayer<nat>, r: (Layer, int))
    requires r == FirstMax(Entries(scores), Domain, 0)
    ensures r.1 >= 0
    ensures forall l :: scores.Get(l) <= r.1
    ensures r.1 > 0 ==> scores.Get(r.0) == r.1 && forall l :: Rank(l) < Rank(r.0) ==> scores.Get(l) < r.1
    ensures r.1 == 0 ==> r.0 == Domain
  {
    var es := Entries(scores);
    forall l ensures scores.Get(l) <= r.1 {
      assert es[Rank(l)].1 == scores.Get(l);
    }
    if r.1 > 0 {
      assert exists i :: 0 <= i < |es| && es[i].1 > 0;
      var k :| 0 <= k < |es| && r == es[k] && forall i :: 0 <= i < k ==> es[i].1 < r.1;
      RankOfOrder(k);
      forall l | Rank(l) < k ensures scores.Get(l) < r.1 {
        assert es[Rank(l)].1 == scores.Get(l);
      }
    }
  }

  /** The layer at position `k` of the declaration order has rank `k`. */
  lemma RankOfOrder(k: nat)
    requires k < |LayerOrder|
    ensures Rank(LayerOrder[k]) == k
  {
  }

  /** The second loop: the winning layer and its score. The winner scores the
      most; among layers with that score it comes first in declaration order;
      when no layer scores, the start value (Domain, 0) is kept. */
  function Winner(scores: PerLayer<nat>): (w: (Layer, nat))
    ensures forall l :: scores.Get(l) <= w.1
    ensures w.1 > 0 ==> scores.Get(w.0) == w.1 && forall l :: Rank(l) < Rank(w.0) ==> scores.Get(l) < w.1
    ensures w.1 == 0 <==> forall l :: scores.Get(l) == 0
    ensures w.1 == 0 ==> w.0 == Domain
  {
    var r := FirstMax(Entries(scores), Domain, 0);
    WinnerFacts(scores, r);
    (r.0, r.1 as nat)
  }

  /** `/^\.(ts|js|go|py|java|cs|rb)$/i`: a code file. */
  const CodeExt: Regex := DotExtOf(["ts", "js", "go", "py", "java", "cs", "rb"])

  /** `/^\.(json|yaml|yml|xml|toml)$/i`: a configuration file. */
  const ConfigExt: Regex := DotExtOf(["json", "yaml", "yml", "xml", "toml"])

  /** No extension is both a code and a configuration extension. */
  lemma CodeConfigDisjoint(ext: string)
    ensures Test(CodeExt, ext) ==> !Test(ConfigExt, ext)
  {
    var codes := ["ts", "js", "go", "py", "java", "cs", "rb"];
    var configs := ["json", "yaml", "yml", "xml", "toml"];
    if Test(CodeExt, ext) {
      var a :| 0 <= a < 7 && CiEq(ext, "." + codes[a]);
      forall b | 0 <= b < 5 ensures !CiEq(ext, "." + configs[b]) {
        if |ext| == 5 && |configs[b]| == 4 {
          assert a == 4;
          assert Lower(ext[1]) == 'j' && Lower(ext[2]) == 'a';
        }
      }
    }
  }

  /** The zero-score heuristic: with nothing scored, a code extension keeps
      Domain and a configuration extension moves the file to Tooling. */
  function Fallback(best: Layer, top: nat, extension: string): (l: Layer)
    ensures top > 0 ==> l == best
    ensures top == 0 && Test(CodeExt, extension) ==> l == Domain
    ensures top == 0 && Test(ConfigExt, extension) ==> l == Tooling
    ensures top == 0 && !Test(CodeExt, extension) && !Test(ConfigExt, extension) ==> l == best
  {
    CodeConfigDisjoint(extension);
    if top == 0 then
      if Test(CodeExt, extension) then Domain
      else if Test(ConfigExt, extension) then Tooling
      else best
    else best
  }

  /** `Math.min(maxScore / 7, 1)`. */
  function Confidence(top: nat): (c: real)
    ensures 0.0 <= c <= 1.0
    ensures c == 0.0 <==> top == 0
    ensures c == 1.0 <==> top >= 7
    ensures top < 7 ==> c * 7.0 == top as real
  {
    var q := top as real / 7.0;
    if q < 1.0 then q else 1.0
  }

  /** A rule the third loop considers: of the chosen layer, with a non-empty
      subcategory, and matching. */
  predicate Eligible(r: Rule, layer: Layer, file: RawFile) {
    r.layer == layer && HasSubcat(r) && Matches(r, file)
  }

  /** The eligible rules, in table order. */
  function EligibleRules(rules: seq<Rule>, layer: Layer, file: RawFile): (es: seq<Rule>)
    ensures forall i :: 0 <= i < |es| ==> Eligible(es[i], layer, file)
  {
    if rules == [] then []
    else (if Eligible(rules[0], layer, file) then [rules[0]] else []) + EligibleRules(rules[1..], layer, file)
  }

  /** A rule is eligible and in the table exactly when it is among the eligible rules. */
  lemma {:induction false} EligibleMembers(rules: seq<Rule>, layer: Layer, file: RawFile, r: Rule)
    ensures r in EligibleRules(rules, layer, file) <==> r in rules && Eligible(r, layer, file)
  {
    if rules != [] {
      EligibleMembers(rules[1..], layer, file, r);
      assert rules == [rules[0]] + rules[1..];
    }
  }

  function Candidate(r: Rule): (Option<string>, int) {
    (r.subcat, r.score)
  }

  /** What the maximum scan over the eligible rules says about them. */
  lemma SubcategoryFacts(rules: seq<Rule>, layer: Layer, file: RawFile, r: (Option<string>, int))
    requires r == FirstMax(Map(EligibleRules(rules, layer, file), Candidate), None, -1)
    ensures r.0.None? <==> EligibleRules(rules, layer, file) == []
    ensures r.0.Some? ==>
      var es := EligibleRules(rules, layer, file);
      exists k :: 0 <= k < |es| && r.0 == es[k].subcat
        && (forall i :: 0 <= i < |es| ==> es[i].score <= es[k].score)
        && (forall i :: 0 <= i < k ==> es[i].score < es[k].score)
  {
    var es := EligibleRules(rules, layer, file);
    CandidateScan(es, layer, file, r);
  }

  /** The maximum scan over any list of eligible rules. */
  lemma CandidateScan(es: seq<Rule>, layer: Layer, file: RawFile, r: (Option<string>, int))
    requires forall i :: 0 <= i < |es| ==> Eligible(es[i], layer, file)
    requires r == FirstMax(Map(es, Candidate), None, -1)
    ensures r.0.None? <==> es == []
    ensures r.0.Some? ==>
      exists k :: 0 <= k < |es| && r.0 == es[k].subcat
        && (forall i :: 0 <= i < |es| ==> es[i].score <= es[k].score)
        && (forall i :: 0 <= i < k ==> es[i].score < es[k].score)
  {
    var cs := Map(es, Candidate);
    if es != [] {
      var k := FirstMaxIndex(cs, None, -1);
      assert r.0 == es[k].subcat && HasSubcat(es[k]);
      ScoresAtMost(es, cs, k);
    }
  }

  /** Candidate scores are rule scores. */
  lemma ScoresAtMost(es: seq<Rule>, cs: seq<(Option<string>, int)>, k: nat)
    requires cs == Map(es, Candidate) && k < |es|
    requires forall i :: 0 <= i < |cs| ==> cs[i].1 <= cs[k].1
    requires forall i :: 0 <= i < k ==> cs[i].1 < cs[k].1
    ensures forall i :: 0 <= i < |es| ==> es[i].score <= es[k].score
    ensures forall i :: 0 <= i < k ==> es[i].score < es[k].score
  {
    assert forall i :: 0 <= i < |es| ==> cs[i].1 == es[i].score;
  }

  /** The third loop: the subcategory of the first eligible rule with the
      highest score, or none when no rule is eligible. */
  function BestSubcategory(rules: seq<Rule>, layer: Layer, file: RawFile): (sub: Option<string>)
    ensures sub.None? <==> EligibleRules(rules, layer, file) == []
    ensures sub.Some? ==>
      var es := EligibleRules(rules, layer, file);
      exists k :: 0 <= k < |es| && sub == es[k].subcat
        && (forall i :: 0 <= i < |es| ==> es[i].score <= es[k].score)
        && (forall i :: 0 <= i < k ==> es[i].score < es[k].score)
  {
    var r := FirstMax(Map(EligibleRules(rules, layer, file), Candidate), None, -1);
    SubcategoryFacts(rules, layer, file, r);
    r.0
  }

  /** The scores of the layers, from the matched rules (reference definition). */
  function Scores(rules: seq<Rule>, file: RawFile): (s: PerLayer<nat>)
    ensures forall l :: s.Get(l) == LayerSum(Matched(rules, file), l)
  {
    var m := Matched(rules, file);
    PerLayer(LayerSum(m, Presentation), LayerSum(m, Application), LayerSum(m, Domain),
             LayerSum(m, Infrastructure), LayerSum(m, Tooling))
  }

  lemma SubcategoryFromTable(rules: seq<Rule>, layer: Layer, file: RawFile, sub: Option<string>)
    requires sub == BestSubcategory(rules, layer, file)
    ensures sub.Some? ==> exists i :: 0 <= i < |rules| && sub == rules[i].subcat && Matches(rules[i], file) && rules[i].layer == layer
  {
    if sub.Some? {
      var es := EligibleRules(rules, layer, file);
      var k :| 0 <= k < |es| && sub == es[k].subcat;
      EligibleMembers(rules, layer, file, es[k]);
      var i :| 0 <= i < |rules| && rules[i] == es[k];
    }
  }

  /** `classifyFile` for the rule table `rules`. */
  function Classify(rules: seq<Rule>, file: RawFile): (a: FileAnalysis)
    ensures a.path == file.path && a.extension == file.extension
    ensures a.loc == file.loc && a.churn == file.churn
    ensures a.moduleName == ModuleName(file.path)
    ensures a.signals == Map(Matched(rules, file), SignalOf)
    // the layer: the best-scoring layer, first in declaration order on a tie
    ensures var s := Scores(rules, file);
      (exists l :: s.Get(l) > 0) ==>
        && s.Get(a.layer) > 0
        && (forall l :: s.Get(l) <= s.Get(a.layer))
        && (forall l :: Rank(l) < Rank(a.layer) ==> s.Get(l) < s.Get(a.layer))
    // nothing scored: Tooling for a configuration extension, Domain otherwise
    ensures var s := Scores(rules, file);
      (forall l :: s.Get(l) == 0) ==> a.layer == (if Test(ConfigExt, file.extension) then Tooling else Domain)
    ensures 0.0 <= a.confidence <= 1.0
    ensures a.confidence == 0.0 <==> forall l :: Scores(rules, file).Get(l) == 0
    ensures a.confidence == 1.0 <==> exists l :: Scores(rules, file).Get(l) >= 7
    ensures a.subcategory.None? <==> EligibleRules(rules, a.layer, file) == []
    ensures a.subcategory.Some? ==> exists i :: 0 <= i < |rules| && a.subcategory == rules[i].subcat && Matches(rules[i], file) && rules[i].layer == a.layer
  {
    var e := Evaluate(rules, file);
    var w := Winner(e.scores);
    var layer := Fallback(w.0, w.1, file.extension);
    var sub := BestSubcategory(rules, layer, file);
    SubcategoryFromTable(rules, layer, file, sub);
    FileAnalysis(file.path, file.extension, file.loc, file.churn, layer, sub,
                 Confidence(w.1), e.signals, ModuleName(file.path))
  }


  /** The confidence is the top layer score over 7, capped at 1. */
  lemma ClassifyConfidence(rules: seq<Rule>, file: RawFile, top: Layer)
    requires forall l :: Scores(rules, file).Get(l) <= Scores(rules, file).Get(top)
    ensures Classify(rules, file).confidence == Confidence(Scores(rules, file).Get(top))
  {
    var e := Evaluate(rules, file);
    var w := Winner(e.scores);
    assert e.scores.Get(top) == Scores(rules, file).Get(top);
    if w.1 > 0 {
      assert e.scores.Get(w.0) <= e.scores.Get(top);
    }
  }

  /** The subcategory is chosen among the rules of the chosen layer: that of
      the first eligible rule with the highest score (see `BestSubcategory`). */
  lemma ClassifySubcategory(rules: seq<Rule>, file: RawFile)
    ensures Classify(rules, file).subcategory == BestSubcategory(rules, Classify(rules, file).layer, file)
  {
  }

  /** With positive scores, some layer scores exactly when some rule matched. */
  lemma ScoredIffMatched(rules: seq<Rule>, file: RawFile)
    requires PositiveScores(rules)
    ensures (exists l :: Scores(rules, file).Get(l) > 0) <==> Matched(rules, file) != []
  {
    var m := Matched(rules, file);
    assert PositiveScores(m) by {
      forall i | 0 <= i < |m| ensures m[i].score >= 1 {
        MatchedMembers(rules, file, m[i]);
      }
    }
    if m != [] {
      LayerSumPositive(m, m[0].layer);
      assert Scores(rules, file).Get(m[0].layer) > 0;
    }
  }

  /** For a table whose rules all weigh something and all carry a
      subcategory, a file gets a subcategory and a non-zero confidence exactly
      when some rule matched. */
  lemma {:induction false} ClassifyPositiveTable(rules: seq<Rule>, file: RawFile)
    requires PositiveScores(rules) && AllHaveSubcat(rules)
    ensures Classify(rules, file).subcategory.None? <==> Matched(rules, file) == []
    ensures Classify(rules, file).confidence == 0.0 <==> Matched(rules, file) == []
  {
    var a := Classify(rules, file);
    var m := Matched(rules, file);
    ScoredIffMatched(rules, file);
    if m == [] {
      if EligibleRules(rules, a.layer, file) != [] {
        var r := EligibleRules(rules, a.layer, file)[0];
        EligibleMembers(rules, a.layer, file, r);
        MatchedMembers(rules, file, r);
      }
    } else {
      assert Scores(rules, file).Get(a.layer) > 0;
      assert PositiveScores(m) by {
        forall i | 0 <= i < |m| ensures m[i].score >= 1 {
          MatchedMembers(rules, file, m[i]);
        }
      }
      LayerSumPositive(m, a.layer);
      var i :| 0 <= i < |m| && m[i].layer == a.layer;
      MatchedMembers(rules, file, m[i]);
      var j :| 0 <= j < |rules| && rules[j] == m[i];
      assert Eligible(m[i], a.layer, file);
      EligibleMembers(rules, a.layer, file, m[i]);
    }
  }

  /** A matched rule never weighs more than its layer's total. */
  lemma {:induction false} RuleWithinLayerSum(rs: seq<Rule>, r: Rule)
    requires r in rs
    ensures r.score <= LayerSum(rs, r.layer)
  {
    if rs[0] != r {
      RuleWithinLayerSum(rs[1..], r);
    }
  }

  /** The rule the subcategory comes from matched, belongs to the chosen
      layer, and scores no more than that layer's total. */
  lemma SubcategoryWithinLayerScore(rules: seq<Rule>, file: RawFile)
    ensures var a := Classify(rules, file);
      a.subcategory.Some? ==> exists i :: (0 <= i < |rules| && a.subcategory == rules[i].subcat &&
        Matches(rules[i], file) && rules[i].layer == a.layer &&
        rules[i].score <= Scores(rules, file).Get(a.layer))
  {
    var a := Classify(rules, file);
    if a.subcategory.Some? {
      var i :| 0 <= i < |rules| && a.subcategory == rules[i].subcat && Matches(rules[i], file) && rules[i].layer == a.layer;
      MatchedMembers(rules, file, rules[i]);
      RuleWithinLayerSum(Matched(rules, file), rules[i]);
    }
  }

  /** Every signal names a rule of the table. */
  lemma SignalsNameRules(rules: seq<Rule>, file: RawFile)
    ensures forall i :: 0 <= i < |Classify(rules, file).signals| ==>
      exists j :: 0 <= j < |rules| && Classify(rules, file).signals[i].rule == rules[j].id
  {
    var a := Classify(rules, file);
    var m := Matched(rules, file);
    forall i | 0 <= i < |a.signals| ensures exists j :: 0 <= j < |rules| && a.signals[i].rule == rules[j].id {
      MatchedMembers(rules, file, m[i]);
      var j :| 0 <= j < |rules| && rules[j] == m[i];
    }
  }

  /** A tie between two layers goes to the one declared first, whatever the
      rule order: with a Domain rule listed before a Presentation rule of the
      same score and both matching, the file is Presentation, takes the
      Presentation rule's subcategory, and its confidence is the score over 7. */
  lemma TieGoesToFirstLayer(d: Rule, p: Rule, file: RawFile)
    requires d.layer == Domain && p.layer == Presentation
    requires d.score == p.score && 1 <= p.score < 7
    requires Matches(d, file) && Matches(p, file) && HasSubcat(p)
    ensures Classify([d, p], file).layer == Presentation
    ensures Classify([d, p], file).subcategory == p.subcat
    ensures Classify([d, p], file).confidence * 7.0 == p.score as real
  {
    var e := Evaluate([d, p], file);
    TieScores(d, p, file);
    TieWinner(e.scores, p.score);
    TieSubcategory(d, p, file);
  }

  lemma TieScores(d: Rule, p: Rule, file: RawFile)
    requires d.layer == Domain && p.layer == Presentation && d.score == p.score
    requires Matches(d, file) && Matches(p, file)
    ensures var s := Evaluate([d, p], file).scores;
      && s.Get(Presentation) == p.score && s.Get(Domain) == p.score
      && s.Get(Application) == 0 && s.Get(Infrastructure) == 0 && s.Get(Tooling) == 0
  {
    var rules := [d, p];
    assert rules[1..] == [p] && rules[1..][1..] == [];
    assert Matched(rules, file) == rules;
    forall l ensures LayerSum(rules, l) == (if l == Domain || l == Presentation then p.score else 0) {
      assert LayerSum([p], l) == (if l == Presentation then p.score else 0) + LayerSum([], l);
      assert LayerSum(rules, l) == (if l == Domain then d.score else 0) + LayerSum([p], l);
    }
  }

  lemma TieWinner(scores: PerLayer<nat>, n: nat)
    requires n > 0
    requires scores.Get(Presentation) == n && scores.Get(Domain) == n
    requires scores.Get(Application) == 0 && scores.Get(Infrastructure) == 0 && scores.Get(Tooling) == 0
    ensures Winner(scores) == (Presentation, n)
  {
    var w := Winner(scores);
    assert w.1 == n;
    assert !(Rank(Presentation) < Rank(w.0));
  }

  lemma TieSubcategory(d: Rule, p: Rule, file: RawFile)
    requires d.layer == Domain && p.layer == Presentation
    requires Matches(p, file) && HasSubcat(p)
    ensures BestSubcategory([d, p], Presentation, file) == p.subcat
  {
    var rules := [d, p];
    assert rules[1..] == [p] && rules[1..][1..] == [];
    assert EligibleRules([p], Presentation, file) == [p] + EligibleRules([], Presentation, file);
    assert EligibleRules(rules, Presentation, file) == [p];
  }

  /** `classifyFile`: the classifier with the repository's rule table, which
      `TableShape` shows to have positive scores and a subcategory on every
      rule, so `ClassifyPositiveTable` applies to it. */
  function ClassifyFile(file: RawFile): FileAnalysis {
    Classify(Table, file)
  }
}
