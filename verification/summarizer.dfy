/** README summary extraction of `summarizeRepo`
    (src/lib/analysis/summarizer.ts): the README text is split into lines,
    each line is trimmed, blank lines and markdown furniture are skipped, and
    the first meaningful lines are gathered until they read as enough of a
    summary. The directory listing and the file reads are parameters: the
    README text when one was found, and the `description` of package.json. */
module Summarizer {
  import opened Wrappers
  import opened Strings
  import opened Seqs

  /** Line 58: gathering stops once the joined text is longer than this... */
  const LengthCutoff: nat := 300
  /** ...or holds this many `.` characters. */
  const DotCutoff: nat := 2
  /** Line 63: the summary is cut to this length. */
  const MaxSummary: nat := 500
  /** Line 65: a summary must be longer than this to be used. */
  const MinSummary: nat := 20
  /** Lines 76 and 78. */
  const NoDescription: string := "No description available."

  // ------------------------------------------------------------------ lines

  /** A `\r` at the very end of a piece, dropped. */
  function DropCr(x: string): (y: string)
    ensures y <= x && |x| - 1 <= |y|
    ensures y == x <==> (x == [] || x[|x| - 1] != '\r')
  {
    if x != [] && x[|x| - 1] == '\r' then x[..|x| - 1] else x
  }

  /** Line 14: `split(/\r?\n/)`. Every piece that a `\n` ends loses the `\r`
      just before that `\n`; the last piece, which no `\n` ends, keeps its own. */
  function SplitLines(s: string): (ls: seq<string>)
    ensures |ls| == |Split(s, '\n')| && ls[|ls| - 1] == Split(s, '\n')[|ls| - 1]
    ensures forall i :: 0 <= i < |ls| - 1 ==> ls[i] == DropCr(Split(s, '\n')[i])
  {
    var ps := Split(s, '\n');
    seq(|ps|, i requires 0 <= i < |ps| => if i < |ps| - 1 then DropCr(ps[i]) else ps[i])
  }

  /** Trimming makes the `\r` irrelevant: the trimmed lines are those of a
      plain split on `\n`. */
  lemma TrimmedLinesIgnoreCr(s: string)
    ensures Map(SplitLines(s), Trim) == Map(Split(s, '\n'), Trim)
  {
    var ps := Split(s, '\n');
    var ls := SplitLines(s);
    var a := Map(ls, Trim);
    var b := Map(ps, Trim);
    forall i | 0 <= i < |ps| ensures a[i] == b[i] {
      if i < |ps| - 1 {
        assert ls[i] == DropCr(ps[i]);
        TrimDropCr(ps[i]);
      } else {
        assert ls[i] == ps[i];
      }
    }
    assert |a| == |b|;
  }

  /** So the lines worth keeping are the same either way. */
  lemma MeaningfulIgnoresCr(s: string)
    ensures Meaningful(SplitLines(s)) == Meaningful(Split(s, '\n'))
  {
    TrimmedLinesIgnoreCr(s);
  }

  lemma TrimDropCr(x: string)
    ensures Trim(DropCr(x)) == Trim(x)
  {
    if x != [] && x[|x| - 1] == '\r' {
      var y := x[..|x| - 1];
      assert x == y + "\r";
      TrimCr(y);
    }
  }

  /** A trailing `\r` is white space to `trim`. */
  lemma {:induction false} TrimCr(y: string)
    ensures Trim(y + "\r") == Trim(y)
  {
    if y == [] {
      assert TrimStart("\r") == TrimStart("");
    } else if IsSpace(y[0]) {
      assert (y + "\r")[1..] == y[1..] + "\r";
      TrimCr(y[1..]);
    } else {
      assert TrimStart(y + "\r") == y + "\r";
      assert (y + "\r")[..|y|] == y;
    }
  }

  // ------------------------------------------------------------ skip rules

  /** Line 24, first pattern `^\[!\[.*?\]\(.*?\)\]\(.*?\)`: a linked image,
      where the three stretches between the brackets hold no line terminator. */
  predicate BadgeLink(t: string) {
    exists i, j, k | 0 <= i < |t| && 0 <= j < |t| && 0 <= k < |t| :: BadgeLinkAt(t, i, j, k)
  }

  /** The three brackets of a linked image start at `i`, `j` and `k`. */
  predicate BadgeLinkAt(t: string, i: nat, j: nat, k: nat) {
    3 <= i && i + 2 <= j && j + 3 <= k < |t| &&
    t[..3] == "[![" && t[i..i + 2] == "](" && t[j..j + 3] == ")](" && t[k] == ')' &&
    OneLine(t[..k + 1])
  }

  /** Line 24, second pattern `^!\[.*?\]\(.*?\)`: an image. */
  predicate Image(t: string) {
    exists i, k | 0 <= i < |t| && 0 <= k < |t| :: ImageAt(t, i, k)
  }

  predicate ImageAt(t: string, i: nat, k: nat) {
    2 <= i && i + 2 <= k < |t| &&
    t[..2] == "![" && t[i..i + 2] == "](" && t[k] == ')' && OneLine(t[..k + 1])
  }

  /** Line 29, `^\[[\w-]+\]:\s*https?:\/\/`: a link reference definition
      pointing at an http or https address. */
  predicate LinkReference(t: string) {
    exists n, m | 0 <= n < |t| && 0 <= m < |t| :: LinkReferenceAt(t, n, m)
  }

  /** The label has `n` characters and `m` white-space characters follow the colon. */
  predicate LinkReferenceAt(t: string, n: nat, m: nat) {
    1 <= n && n + 3 + m <= |t| && t[0] == '[' &&
    (forall q :: 1 <= q <= n ==> IsWordChar(t[q]) || t[q] == '-') &&
    t[n + 1..n + 3] == "]:" &&
    (forall q :: n + 3 <= q < n + 3 + m ==> IsSpace(t[q])) &&
    ("http://" <= t[n + 3 + m..] || "https://" <= t[n + 3 + m..])
  }

  /** The class `[\w\s="'-]`. */
  predicate TagChar(c: char) {
    IsWordChar(c) || IsSpace(c) || c == '=' || c == '"' || c == '\'' || c == '-'
  }

  /** Line 34, first pattern `^<[\w\s="'-]+>`: an opening tag. */
  predicate OpeningTag(t: string) {
    exists k :: 2 <= k < |t| && t[0] == '<' && t[k] == '>' &&
      forall q :: 1 <= q < k ==> TagChar(t[q])
  }

  /** Line 34, second pattern `^<\/\w+>$`: a closing tag and nothing else. */
  predicate ClosingTag(t: string) {
    |t| >= 4 && t[..2] == "</" && t[|t| - 1] == '>' &&
    forall q :: 2 <= q < |t| - 1 ==> IsWordChar(t[q])
  }

  /** Line 39, `^#{1,6}\s`: one to six `#` and then white space. */
  predicate Heading(t: string) {
    exists h :: 1 <= h <= 6 && h < |t| && IsSpace(t[h]) &&
      forall q :: 0 <= q < h ==> t[q] == '#'
  }

  /** Line 44, `^[-*_]{3,}$`: a horizontal rule. */
  predicate Rule(t: string) {
    |t| >= 3 && forall q :: 0 <= q < |t| ==> t[q] == '-' || t[q] == '*' || t[q] == '_'
  }

  /** Line 49: the start or the end of an HTML comment. */
  predicate CommentMark(t: string) {
    "<!--" <= t || EndsWith(t, "-->")
  }

  /** Lines 24-51: a trimmed line the summary passes over. */
  predicate Skipped(t: string) {
    BadgeLink(t) || Image(t) || LinkReference(t) || OpeningTag(t) || ClosingTag(t) ||
    Heading(t) || Rule(t) || CommentMark(t)
  }

  /** Lines 21-54: a trimmed line worth keeping. */
  predicate Keep(t: string) {
    t != "" && !Skipped(t)
  }

  /** The trimmed lines worth keeping, in order: what the loop would gather
      if it never stopped early. */
  function Meaningful(lines: seq<string>): (ms: seq<string>)
    ensures forall i :: 0 <= i < |ms| ==> Keep(ms[i]) && ms[i] in Map(lines, Trim)
    ensures forall i :: 0 <= i < |lines| && Keep(Trim(lines[i])) ==> Trim(lines[i]) in ms
  {
    var ts := Map(lines, Trim);
    FilterKeeps(ts, Keep);
    assert forall i :: 0 <= i < |lines| ==> Trim(lines[i]) == ts[i];
    Filter(ts, Keep)
  }

  lemma MeaningfulCons(lines: seq<string>)
    requires lines != []
    ensures Meaningful(lines) ==
      (if Keep(Trim(lines[0])) then [Trim(lines[0])] else []) + Meaningful(lines[1..])
  {
    assert Map(lines, Trim)[1..] == Map(lines[1..], Trim);
  }

  // ---------------------------------------------------------- the gathering

  /** Line 58: the gathered lines read as enough of a summary. */
  predicate Enough(kept: seq<string>) {
    var combined := Join(kept, " ");
    |combined| > LengthCutoff || CountChar(combined, '.') >= DotCutoff
  }

  /** Lines 17-61 from line `lines[0]` on, with `acc` gathered so far. */
  function Collect(lines: seq<string>, acc: seq<string>): seq<string>
    decreases |lines|
  {
    if lines == [] then acc
    else
      var t := Trim(lines[0]);
      if !Keep(t) then Collect(lines[1..], acc)
      else if Enough(acc + [t]) then acc + [t]
      else Collect(lines[1..], acc + [t])
  }

  /** No non-empty prefix of `kept` shorter than `upTo` is enough. */
  predicate NotEnoughBefore(kept: seq<string>, upTo: nat) {
    forall n :: 1 <= n < upTo && n <= |kept| ==> !Enough(kept[..n])
  }

  /** What the gathering loop promises: its lines are the first meaningful
      lines, it stops at the first point where they are enough, and it takes
      them all when that point never comes. */
  predicate Gathered(lines: seq<string>, kept: seq<string>) {
    && kept <= Meaningful(lines)
    && (kept == Meaningful(lines) || Enough(kept))
    && NotEnoughBefore(kept, |kept|)
  }

  /** The same promise for a run that starts with `acc` already gathered and
      has `m` left to gather from. */
  predicate Continues(acc: seq<string>, r: seq<string>, m: seq<string>) {
    && acc <= r && r[|acc|..] <= m
    && (r[|acc|..] == m || Enough(r))
    && NotEnoughBefore(r, |r|)
  }

  /** The loop meets that promise. */
  lemma CollectGathers(lines: seq<string>)
    ensures Gathered(lines, Collect(lines, []))
  {
    CollectFrom(lines, []);
    var r := Collect(lines, []);
    assert r[0..] == r;
  }

  lemma {:induction false} CollectFrom(lines: seq<string>, acc: seq<string>)
    requires NotEnoughBefore(acc, |acc| + 1)
    ensures Continues(acc, Collect(lines, acc), Meaningful(lines))
    decreases |lines|
  {
    if lines == [] {
      assert Collect(lines, acc)[|acc|..] == [];
    } else {
      var t := Trim(lines[0]);
      MeaningfulCons(lines);
      if !Keep(t) {
        CollectFrom(lines[1..], acc);
      } else if Enough(acc + [t]) {
        StopHere(acc, t, Meaningful(lines[1..]));
      } else {
        KeepOne(acc, t);
        CollectFrom(lines[1..], acc + [t]);
        StepBack(acc, t, Collect(lines[1..], acc + [t]), Meaningful(lines[1..]));
      }
    }
  }

  /** Appending a line that is not yet enough keeps every prefix short of enough. */
  lemma KeepOne(acc: seq<string>, t: string)
    requires NotEnoughBefore(acc, |acc| + 1) && !Enough(acc + [t])
    ensures NotEnoughBefore(acc + [t], |acc| + 2)
  {
    forall n | 1 <= n <= |acc| ensures (acc + [t])[..n] == acc[..n] {
    }
    assert (acc + [t])[..|acc| + 1] == acc + [t];
  }

  /** The line that makes the text enough ends the gathering. */
  lemma StopHere(acc: seq<string>, t: string, m: seq<string>)
    requires NotEnoughBefore(acc, |acc| + 1) && Enough(acc + [t])
    ensures Continues(acc, acc + [t], [t] + m)
  {
    forall n | 1 <= n <= |acc| ensures (acc + [t])[..n] == acc[..n] {
    }
    assert (acc + [t])[|acc|..] == [t];
  }

  /** A run after `acc + [t]` is, with `t` in front, a run after `acc`. */
  lemma StepBack(acc: seq<string>, t: string, r: seq<string>, m: seq<string>)
    requires Continues(acc + [t], r, m)
    ensures Continues(acc, r, [t] + m)
  {
    assert r[|acc|] == t;
    assert r[|acc|..] == [t] + r[|acc| + 1..];
  }

  /** Two lists that both meet the promise are the same list, so the
      promise determines what the loop gathers: were one shorter, it would be
      a non-empty prefix of the other that is already enough. */
  lemma GatheredUnique(lines: seq<string>, a: seq<string>, b: seq<string>)
    requires Gathered(lines, a) && Gathered(lines, b)
    ensures a == b
  {
    NotShorter(lines, a, b);
    NotShorter(lines, b, a);
    assert a == Meaningful(lines)[..|a|];
  }

  lemma NotShorter(lines: seq<string>, a: seq<string>, b: seq<string>)
    requires Gathered(lines, a) && Gathered(lines, b)
    ensures |a| <= |b|
  {
    PrefixBound(a, b, Meaningful(lines));
  }

  /** A prefix of `m` that is all of `m` or already enough is at least as
      long as any prefix of `m` none of whose shorter prefixes is enough. */
  lemma PrefixBound(a: seq<string>, b: seq<string>, m: seq<string>)
    requires a <= m && b <= m && NotEnoughBefore(a, |a|)
    requires b == m || Enough(b)
    ensures |a| <= |b|
  {
    ShortPrefix(a, b, m);
  }

  /** A prefix of `m` shorter than `a` is neither all of `m` nor enough. */
  lemma ShortPrefix(a: seq<string>, b: seq<string>, m: seq<string>)
    requires a <= m && b <= m && NotEnoughBefore(a, |a|)
    ensures |b| < |a| ==> b != m && !Enough(b)
  {
    if |b| < |a| {
      assert a[..|b|] == b;
      assert Join([], " ") == "";
    }
  }

  // ------------------------------------------------------------- summary

  /** Line 63: the gathered lines joined with single spaces, cut to 500. */
  function SummaryText(readme: string): (s: string)
    ensures |s| <= MaxSummary
    ensures s <= Join(Collect(SplitLines(readme), []), " ")
    ensures |s| == if |Join(Collect(SplitLines(readme), []), " ")| <= MaxSummary
                   then |Join(Collect(SplitLines(readme), []), " ")| else MaxSummary
  {
    Take(Join(Collect(SplitLines(readme), []), " "), MaxSummary)
  }

  /** Line 76: `pkg.description || "No description available."`. */
  function PackageFallback(description: Option<string>): (s: string)
    ensures s != ""
    ensures description.Some? && description.value != "" ==> s == description.value
    ensures description.None? || description.value == "" ==> s == NoDescription
  {
    match description
    case Some(d) => if d != "" then d else NoDescription
    case None => NoDescription
  }

  /** Lines 4-80: the README summary when one was found and it is longer than
      20 characters, otherwise the package description, otherwise the
      default text. A missing or unreadable README is `None`; so is a missing
      or unparsable package.json. */
  function SummarizeRepo(readme: Option<string>, description: Option<string>): (s: string)
    ensures s != ""
    ensures readme.Some? && |SummaryText(readme.value)| > MinSummary ==> s == SummaryText(readme.value)
    ensures readme.None? || |SummaryText(readme.value)| <= MinSummary ==> s == PackageFallback(description)
    ensures |s| <= MaxSummary || (description.Some? && s == description.value)
  {
    if readme.Some? && |SummaryText(readme.value)| > MinSummary then SummaryText(readme.value)
    else PackageFallback(description)
  }
}
