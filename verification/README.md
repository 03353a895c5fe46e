# repo-atlas analysis core, in Dafny

repo-atlas reads a software repository and draws an architecture map of it. It
classifies every file into one of five layers: Presentation, Application,
Domain, Infrastructure and Tooling. It then rolls the files up into modules and
writes a one-paragraph summary of the project. This project models the pure
core of that pipeline and proves properties of it. The pieces are:

- the local scanner (`scanRepo`): the `git ls-files` listing, churn counted
  from `git log --name-only`, the null-byte binary test, and line counts and
  snippets;
- the GitHub fetcher (`fetchRepoFiles`): URL parsing, the extension and binary
  test on paths, the blob filter, the 500-file cap, and the per-file fetch loop;
- the classifier (`classifyFile`): the 31-rule table, the per-layer scores and
  signals, the winning layer and its fallback, the confidence, the best
  subcategory, and the module-name resolver `getModuleName`;
- the aggregation in `analyzeRepository`: the per-layer statistics, the owner
  and name taken from the URL, the module rollup, and one module entry per
  module with its dominant layer;
- the README summariser (`summarizeRepo`): the line filter, the gathering loop
  and its stop rule, the 500-character cut, and the package.json fallback.

Files, one module each:

- `strings.dfy` (Strings): `split`, `join`, `trim`, `replace` and ASCII
  lower-casing on strings.
- `seqs.dfy` (Seqs): map and filter on sequences, and the insertion-ordered
  counter that a JavaScript `Map` or object filled in a loop behaves as.
- `types.dfy` (Types): the records.
- `lines.dfy` (Lines): line counts and snippets.
- `patterns.dfy` (Patterns): the shapes of the rule table's regular
  expressions.
- `rules.dfy` (Rules): the rule table.
- `classifier.dfy` (Classifier): `classifyFile`.
- `modulename.dfy` (ModuleNames): `getModuleName`.
- `aggregate.dfy` (Aggregate): layer statistics and the module rollup.
- `repourl.dfy` (RepoUrl): owner and name from the URL.
- `scanner.dfy` (Scanner): the local scanner.
- `fetcher.dfy` (Fetcher): the GitHub fetcher.
- `summarizer.dfy` (Summarizer): the README summariser.

Everything the code gets from the outside world becomes a parameter:

- the text of the `ls-files` and `git log` output;
- a `read` function from path to bytes;
- a `fetch` function from path to base64 content;
- the decoders;
- `path.extname`;
- the README text and the package.json description.

Scores and counts are unbounded naturals, and the averages are exact reals.

## Model

| member | source | states |
|---|---|---|
| Aggregate.LayerStats | src/lib/analysis/index.ts:33-42 | each layer's count is the number of files classified into it, its loc is their line total, and totalLoc is the line total of all files |
| Aggregate.LayersAddUp | src/lib/analysis/index.ts:33-42 | the five layer counts add up to the number of files, and the five layer loc figures to totalLoc |
| Aggregate.LayerStatsOrderFree | src/lib/analysis/index.ts:38-42 | the layer statistics depend only on which files there are, not on their order |
| Aggregate.Rollup | src/lib/analysis/index.ts:77-88 | the module map's keys are the files' module names in first-seen order, and each value is the sum over exactly the files of that module: loc, churn, count and layer tally |
| Aggregate.MembersAre | src/lib/analysis/index.ts:77-88 | the files a module entry sums over are exactly the files that carry its module name |
| Aggregate.RollupStep | src/lib/analysis/index.ts:79-88 | one pass of the loop body keeps the rollup invariant when one more file is taken in |
| Aggregate.RollupEntry | src/lib/analysis/index.ts:80-87 | after a file is taken in, every map entry is again the summary of exactly its module's files |
| Aggregate.AddToModule | src/lib/analysis/index.ts:80-87 | taking in a file changes only its own module's entry; a module not seen before gets a fresh entry at the end of the map |
| Aggregate.AddToModuleNames | src/lib/analysis/index.ts:80-82 | the key order gains the file's module at the end exactly when it was new |
| Aggregate.EntryUnchanged | src/lib/analysis/index.ts:83-87 | another module's entry is not touched by the file |
| Aggregate.EntryAbsorbed | src/lib/analysis/index.ts:83-87 | updating the entry of the file's own module gives the summary of that module including the new file |
| Aggregate.EntryCreated | src/lib/analysis/index.ts:80-87 | the zero entry created for a new module, once updated, is the summary of its single file |
| Aggregate.SummaryStep | src/lib/analysis/index.ts:84-87 | the summary of a module's files grows by one file as the loop body updates it |
| Aggregate.AddToModuleTotals | src/lib/analysis/index.ts:84-86 | taking in a file raises the total count by one and the total loc by the file's loc |
| Aggregate.RollupTotals | src/lib/analysis/index.ts:79-88 | the module counts add up to the number of files, and the module locs to totalLoc |
| Aggregate.Dominant | src/lib/analysis/index.ts:92-99 | the dominant layer has the largest count, and on a tie it is the first in the tally's key order; an empty tally gives Domain |
| Aggregate.DominantOfTally | src/lib/analysis/index.ts:87-99 | over a module's layers, the dominant layer occurs, no layer occurs more often, and among the equally frequent ones it is seen first |
| Aggregate.ChurnAvg | src/lib/analysis/index.ts:106 | the average times the file count is the churn sum, and an empty module averages 0 |
| Aggregate.ModuleEntries | src/lib/analysis/index.ts:90-109 | there is one entry per distinct module name, in first-seen order |
| Aggregate.EntryOfModule | src/lib/analysis/index.ts:90-109 | each entry is built from the summary of exactly its module's files, and the module has at least one file |
| Aggregate.ModuleEntrySums | src/lib/analysis/index.ts:101-108 | an entry's loc is its files' line total, its churnAvg is their mean churn, and its confidenceAvg is 0.8 |
| Aggregate.ModuleEntryLayer | src/lib/analysis/index.ts:87-104 | an entry's layer is the most frequent layer among its files, the earliest seen on a tie |
| Aggregate.EntriesCoverLoc | src/lib/analysis/index.ts:90-109 | the module entries' locs add up to totalLoc |
| Aggregate.FirstLayerWinsTie | src/lib/analysis/index.ts:95-98 | because the comparison is strict, two files of one module in different layers give the first file's layer |
| Aggregate.OneModule | src/lib/analysis/index.ts:79-91 | two files of one module make one entry whose layer tally lists their layers in file order |
| Aggregate.DominantDependsOnOrder | src/lib/analysis/index.ts:94-98 | the same two files in the other order give a different dominant layer |
| RepoUrl.CleanName | src/lib/analysis/index.ts:46 | the name is the last piece with its first `.git` removed; a piece without `.git` is kept as it is |
| RepoUrl.OwnerOf | src/lib/analysis/index.ts:47 | the owner is never empty (`unknown` stands in for a missing or empty piece) and holds no `/` |
| RepoUrl.RepoNameOf | src/lib/analysis/index.ts:45-47 | owner and name hold no `/`, and a URL without `/` has owner `unknown` |
| RepoUrl.RepoNameOfPieces | src/lib/analysis/index.ts:45-47 | for a URL joined from slash-free pieces, the owner is the second-to-last piece and the name is the last piece with its first `.git` removed |
| RepoUrl.RepoNameOfJoin | src/lib/analysis/index.ts:45-47 | a URL whose last two pieces are an owner and a name gives that owner and name back |
| RepoUrl.RepoNameOfJoinGit | src/lib/analysis/index.ts:45-47 | a `.git` suffix on the name is removed |
| RepoUrl.NameLosesInnerGit | src/lib/analysis/index.ts:46 | the first `.git` is removed wherever it stands, not only at the end |
| Rules.TableShape | src/lib/analysis/classifier.ts:14-106 | the table has 31 rules, every one with a positive score and a subcategory |
| Rules.GithubDotIsWildcard | src/lib/analysis/classifier.ts:94 | the unescaped dot of `.github` lets "tool-config-folder" fire on `xgithub` and across `//github` |
| Patterns.SegmentAtStart | src/lib/analysis/classifier.ts:21 | the segment shape (start or `/`, the name, then `/` or end) matching at position 0 means the first `/`-piece is the name, ignoring ASCII case |
| Patterns.SegmentLater | src/lib/analysis/classifier.ts:21 | a match after a `/` means some later `/`-piece is the name, and conversely |
| Patterns.SegmentMeansSomePiece | src/lib/analysis/classifier.ts:21 | the segment pattern matches a path exactly when one of its `/`-pieces equals the name, ignoring ASCII case |
| Classifier.MatchedMembers | src/lib/analysis/classifier.ts:120-134 | a rule fires exactly when it is in the table and matches the file |
| Classifier.Evaluate | src/lib/analysis/classifier.ts:120-138 | the signals are the firing rules in table order, and each layer's score is the total score of its firing rules |
| Classifier.StepKeepsScores | src/lib/analysis/classifier.ts:134-137 | one pass of the rule loop keeps that invariant |
| Classifier.StrengthsAddUp | src/lib/analysis/classifier.ts:136 | the signal strengths add up to the total score of the firing rules |
| Classifier.LayerSumsAddUp | src/lib/analysis/classifier.ts:135 | the five layer scores add up to the total score of the firing rules |
| Classifier.LayerSumPositive | src/lib/analysis/classifier.ts:135 | with positive rule scores, a layer scores above zero exactly when one of its rules fired |
| Classifier.ScoredIffMatched | src/lib/analysis/classifier.ts:134-149 | with positive rule scores, some layer scores above zero exactly when some rule fired |
| Classifier.Winner | src/lib/analysis/classifier.ts:141-149 | the winning score is the maximum; when positive, it belongs to the first layer in declaration order that reaches it; it is zero exactly when every layer scored zero, and then the layer is Domain |
| Classifier.WinnerFacts | src/lib/analysis/classifier.ts:141-149 | the strictly-greater scan over the score record finds that maximum |
| Classifier.CodeConfigDisjoint | src/lib/analysis/classifier.ts:154-155 | no extension is both a code and a configuration extension, so the order of the two tests does not matter |
| Classifier.Fallback | src/lib/analysis/classifier.ts:153-156 | with a positive score the winner stays; with none, a code extension gives Domain, a configuration extension gives Tooling, and anything else keeps the default |
| Classifier.Confidence | src/lib/analysis/classifier.ts:158 | the confidence lies in [0, 1]; it is 0 exactly when nothing scored, 1 exactly from a score of 7 on, and the score over 7 in between |
| Classifier.EligibleMembers | src/lib/analysis/classifier.ts:164-178 | a rule is eligible for the subcategory exactly when it is in the table, belongs to the chosen layer, names a subcategory and matches the file |
| Classifier.BestSubcategory | src/lib/analysis/classifier.ts:161-184 | there is no subcategory exactly when no rule is eligible; otherwise it is the subcategory of the first eligible rule with the highest score |
| Classifier.SubcategoryFacts | src/lib/analysis/classifier.ts:161-184 | the strictly-greater scan from -1 over the eligible rules picks that rule |
| Classifier.CandidateScan | src/lib/analysis/classifier.ts:180-183 | the same, for any sequence of eligible rules |
| Classifier.SubcategoryFromTable | src/lib/analysis/classifier.ts:161-184 | a chosen subcategory comes from a table rule of the chosen layer that matches the file |
| Classifier.Classify | src/lib/analysis/classifier.ts:108-198 | path, extension, loc and churn are copied; the module is the resolver's answer; the signals are the firing rules; the layer is the best-scoring one, first on a tie, or the extension fallback when nothing scored; the confidence is 0 exactly when nothing scored and 1 exactly when some layer scores 7 or more; there is no subcategory exactly when no rule of the chosen layer is eligible, and a chosen one comes from a matching rule of that layer (the exact values: the next two rows) |
| Classifier.ClassifyConfidence | src/lib/analysis/classifier.ts:141-158 | the confidence is the top layer score over 7, capped at 1 |
| Classifier.ClassifySubcategory | src/lib/analysis/classifier.ts:161-184 | the subcategory is that of the first highest-scoring eligible rule of the chosen layer, or none when no rule is eligible |
| Classifier.ClassifyPositiveTable | src/lib/analysis/classifier.ts:153-184 | for a table whose rules all weigh something and name a subcategory, a file gets no subcategory and confidence 0 exactly when no rule fires |
| Classifier.RuleWithinLayerSum | src/lib/analysis/classifier.ts:135 | a firing rule's score is at most its layer's total |
| Classifier.SubcategoryWithinLayerScore | src/lib/analysis/classifier.ts:161-184 | the rule that names the subcategory scores no more than the winning layer |
| Classifier.SignalsNameRules | src/lib/analysis/classifier.ts:136 | every signal names a rule of the table |
| Classifier.TieGoesToFirstLayer | src/lib/analysis/classifier.ts:144-158 | when a Domain rule and a Presentation rule tie, Presentation wins (it is declared first), and it names the subcategory and the confidence |
| Classifier.TieScores | src/lib/analysis/classifier.ts:120-138 | the two tying rules give equal Presentation and Domain scores and nothing else |
| Classifier.TieWinner | src/lib/analysis/classifier.ts:144-149 | on equal Presentation and Domain scores, the scan keeps Presentation |
| Classifier.TieSubcategory | src/lib/analysis/classifier.ts:164-184 | the Presentation rule's subcategory is the one chosen for Presentation |
| ModuleNames.SkipFrom | src/lib/analysis/classifier.ts:205-208 | the skip phase stops at the first segment that is not a structural root |
| ModuleNames.DrillFrom | src/lib/analysis/classifier.ts:217-230 | the drill phase steps over generic roots only while a directory and a file name still follow |
| ModuleNames.Walk | src/lib/analysis/classifier.ts:200-257 | the resolver returns `(root)` exactly when every directory segment is a structural root; a grouper answer keeps its child directory; the parent-directory return at line 251 is never reached |
| ModuleNames.ModuleName | src/lib/analysis/classifier.ts:200-257 | `(root)` exactly when every directory is a structural root, otherwise a directory segment or a grouper with its child, and never empty when no segment is empty |
| ModuleNames.LeadingGrouper | src/lib/analysis/classifier.ts:235-241 | a grouper root at the top, with a directory below it, names the module together with that directory |
| ModuleNames.ExampleLibFile | src/lib/analysis/classifier.ts:215 | `lib/utils.ts` resolves to `lib` |
| ModuleNames.ExampleLibNested | src/lib/analysis/classifier.ts:216-227 | `lib/analysis/scanner.ts` resolves to `analysis` |
| ModuleNames.ExampleAppPage | src/lib/analysis/classifier.ts:213 | `app/page.tsx` resolves to `app` |
| ModuleNames.ExampleAppApi | src/lib/analysis/classifier.ts:214 | `app/api/users` resolves to `api`, not to the `api/users` the comment there promises |
| ModuleNames.ExampleAgents | src/lib/analysis/classifier.ts:233 | `agents/application/trade.py` resolves to `agents/application` |
| ModuleNames.ExamplePackages | src/lib/analysis/classifier.ts:234 | `packages/core/index.ts` resolves to `packages/core` |
| ModuleNames.ExampleSrcLib | src/lib/analysis/classifier.ts:205-230 | `src/lib/analysis/scanner.ts` resolves to `analysis` |
| ModuleNames.ExampleTopLevel | src/lib/analysis/classifier.ts:245-253 | a file at the top level belongs to `(root)` |
| Fetcher.GetExtension | src/lib/analysis/github-fetcher.ts:101-104 | a path without a dot has no extension; otherwise it is a dot followed by the lower-cased text after the last dot |
| Fetcher.ExtensionOfName | src/lib/analysis/github-fetcher.ts:101-104 | `stem.ext` has extension `.ext`, lower-cased, whatever dots the stem holds |
| Fetcher.DotlessNeverBinary | src/lib/analysis/github-fetcher.ts:106-116 | a path without a dot is never taken for binary |
| Fetcher.BinaryByLastExtension | src/lib/analysis/github-fetcher.ts:106-116 | a path is binary exactly when its last extension, lower-cased, is on the list |
| Fetcher.MatchAtShape | src/lib/analysis/github-fetcher.ts:23 | an attempt at one position succeeds exactly on `github.com/owner/repo` there, with the two groups as the longest slash-free runs |
| Fetcher.FindMatch | src/lib/analysis/github-fetcher.ts:23 | the search returns the leftmost position where the pattern matches, or nothing when it matches nowhere |
| Fetcher.StripGit | src/lib/analysis/github-fetcher.ts:29 | a trailing `.git` is removed and nothing else |
| Fetcher.ParseGitHubUrl | src/lib/analysis/github-fetcher.ts:22-29 | the URL is rejected with "Invalid GitHub URL" exactly when the pattern matches nowhere; otherwise owner and repo come from the leftmost match |
| Fetcher.ParseCanonical | src/lib/analysis/github-fetcher.ts:22-29 | a URL built from a prefix, the host, an owner, a repo and a `/`-led tail parses back to that owner and repo |
| Fetcher.ParseFirstShape | src/lib/analysis/github-fetcher.ts:22-29 | conversely, the leftmost match is what the parse returns |
| Fetcher.KeptEntries | src/lib/analysis/github-fetcher.ts:48-54 | the kept entries are the first 500 wanted entries (non-binary blobs), or all of them when there are fewer |
| Fetcher.SmallTreeKept | src/lib/analysis/github-fetcher.ts:53-54 | a tree of at most 500 wanted entries is kept whole |
| Fetcher.LimitIgnoresRest | src/lib/analysis/github-fetcher.ts:53-54 | once 500 wanted entries have been seen, the rest of the tree does not matter |
| Fetcher.FetchedRecord | src/lib/analysis/github-fetcher.ts:69-83 | a fetched file's record has churn 0, the path's extension, the line count of its content and a snippet that is a prefix of it |
| Fetcher.FetchedSnippet | src/lib/analysis/github-fetcher.ts:71-73 | a fetched record's snippet is the content's snippet: its first 50 whole lines |
| Fetcher.FetchPaths | src/lib/analysis/github-fetcher.ts:57-90 | the loop keeps, in order, exactly the paths whose fetch succeeded with non-empty content, each with the record of its decoded content |
| Fetcher.FetchFiles | src/lib/analysis/github-fetcher.ts:57-90 | the same for the kept tree entries |
| Fetcher.FetchRepoFiles | src/lib/analysis/github-fetcher.ts:15-99 | with the two repository calls taken as succeeding, the call fails exactly when the URL does not parse; otherwise it returns the parsed owner and repo and at most 500 records, one per fetched kept entry, each the record of that entry's decoded content: its path, line count, churn 0, extension and snippet |
| Lines.LineCount | src/lib/analysis/scanner.ts:52-53 | the line count is one more than the number of newlines, so at least 1 |
| Lines.SnippetUnique | src/lib/analysis/scanner.ts:54 | the snippet is the only prefix of the content that ends at a line break or at the end and holds its first 50 lines |
| Lines.Snippet | src/lib/analysis/scanner.ts:54 | the snippet is a prefix of the content holding its first 50 lines, or all of it when it has no more; it ends at a line break, so it holds whole lines only |
| Scanner.IsBinary | src/lib/analysis/scanner.ts:13-17 | a buffer is binary exactly when a zero byte occurs among its first 8000 bytes |
| Scanner.BinaryLooksAtProbeOnly | src/lib/analysis/scanner.ts:15 | what follows the first 8000 bytes never changes the verdict |
| Scanner.ListedPaths | src/lib/analysis/scanner.ts:24 | every listed path is non-blank and holds no newline |
| Scanner.ListedPathsOfListing | src/lib/analysis/scanner.ts:23-24 | a newline-terminated listing of non-blank paths gives those paths back, in order |
| Scanner.EmptyListing | src/lib/analysis/scanner.ts:24 | an empty listing lists nothing |
| Scanner.ChurnTable | src/lib/analysis/scanner.ts:30-36 | the churn counter has each path once |
| Scanner.ChurnCountsMentions | src/lib/analysis/scanner.ts:29-36 | a path's churn is the number of non-blank log lines whose trimmed text is the path, and 0 when the log never names it |
| Scanner.Record | src/lib/analysis/scanner.ts:51-62 | a scanned file's record has its path, the lower-cased extension, the line count of its content and a prefix of it as snippet |
| Scanner.RecordSnippet | src/lib/analysis/scanner.ts:52-54 | a scanned record's snippet is the content's snippet: its first 50 whole lines |
| Scanner.RecordChurn | src/lib/analysis/scanner.ts:59 | a record's churn is the number of log lines that name its path |
| Scanner.ScanPaths | src/lib/analysis/scanner.ts:41-67 | the loop keeps, in order, exactly the paths that can be read and are not binary, each with the record of its decoded content |
| Scanner.ScanRepo | src/lib/analysis/scanner.ts:19-70 | the same over the paths of the listing |
| Seqs.LookupTally | src/lib/analysis/scanner.ts:32-36 | the counter filled from a sequence holds, for each key, its number of occurrences |
| Seqs.TallyKeys | src/lib/analysis/index.ts:87 | the counter's keys are the distinct elements in first-seen order |
| Seqs.TallyMax | src/lib/analysis/index.ts:92-99 | the strictly-greater scan over a counter finds the most frequent element, the first seen on a tie |
| Seqs.FirstMax | src/lib/analysis/classifier.ts:144-149 | a strictly-greater scan from a starting value returns an entry of maximal score, the first such, or the start when nothing beats it |
| Strings.Split | src/lib/analysis/index.ts:45 | the pieces hold no separator and join back to the string |
| Strings.SplitJoin | src/lib/analysis/scanner.ts:24 | splitting joined separator-free pieces gives them back |
| Strings.Trim | src/lib/analysis/scanner.ts:33 | the trimmed text is the slice of the string that starts after its leading white space and has only white space after it; it is empty exactly when the string is all white space, and otherwise starts and ends with a non-space character |
| Strings.ReplaceFirst | src/lib/analysis/index.ts:46 | without an occurrence the string is unchanged; otherwise the leftmost occurrence is replaced |
| Summarizer.SplitLines | src/lib/analysis/summarizer.ts:14 | splitting on `\r?\n` is splitting on `\n` and dropping the `\r` before each `\n` |
| Summarizer.MeaningfulIgnoresCr | src/lib/analysis/summarizer.ts:14-18 | after trimming, the dropped `\r` makes no difference to which lines are kept |
| Summarizer.Meaningful | src/lib/analysis/summarizer.ts:17-54 | every kept line is a trimmed line of the README that is neither blank nor a badge, link reference, HTML tag, heading, rule or comment marker, and every such trimmed line is kept |
| Summarizer.MeaningfulCons | src/lib/analysis/summarizer.ts:17-54 | in order, exactly the non-skipped trimmed lines: the first line's trimmed text comes first when it qualifies, followed by the qualifying lines of the rest |
| Summarizer.CollectGathers | src/lib/analysis/summarizer.ts:17-61 | the loop gathers a prefix of the meaningful lines, stopping at the first prefix that is enough (over 300 characters or two dots joined), or taking all of them |
| Summarizer.GatheredUnique | src/lib/analysis/summarizer.ts:17-61 | that description fixes the gathered lines uniquely |
| Summarizer.SummaryText | src/lib/analysis/summarizer.ts:63 | the summary is exactly the first 500 characters of the gathered lines joined with spaces, or all of them when there are fewer |
| Summarizer.PackageFallback | src/lib/analysis/summarizer.ts:73-79 | the fallback is the package description when it is non-empty, and the fixed placeholder otherwise |
| Summarizer.SummarizeRepo | src/lib/analysis/summarizer.ts:4-80 | a README summary longer than 20 characters is returned, and otherwise the fallback; the result is never empty |

## Left out

- I/O is not modelled: git (`ls-files`, `log`, `rev-parse`), the file system, Octokit, Prisma, JSON parsing and the UI. Their results are parameters: the listing and log text, `read`, `fetch`, the decoders, the README text and the package.json description.
- Decoding is a parameter: UTF-8 decoding of a buffer and base64 decoding of fetched content are given as functions.
- `path.extname` is a function parameter of the scanner. Its lower-casing is modelled, for ASCII letters only.
- The README lookup with `readdir` and `/^readme/i` (summarizer.ts:8-11) is left out. The README text arrives as an optional string.
- The package.json description arrives as an optional string. A non-string truthy `description` is not modelled.
- Exceptions become skips. A read or fetch that throws is a `None` from the parameter function. A malformed package.json gives `None`, which yields the placeholder.
- The repository information call (github-fetcher.ts:32-38) is not modelled: its description and default branch come from the network. `FetchRepoFiles` returns the owner, repo and files only.
- Floating point is modelled as exact reals: the confidence `score / 7` and the churn average.
- Case-insensitive regular expressions fold ASCII letters only. Every pattern in the table is ASCII.
- The regular expressions are modelled by the shapes the table uses, not by a general regex engine. These shapes are: a path segment, a whole file name, a file name with one of several extensions, a dotted extension, and any-of-several substrings.
- `path.sep` is taken to be `/` (a POSIX host).
- ClassifyFile: it has no contract of its own. It is `Classify` applied to the rule table, so its properties are those of `Classify` together with `Rules.TableShape` and `Classifier.ClassifyPositiveTable`.
- Summarizer.SummaryText: lengths are counted in characters of the model's strings. JavaScript counts UTF-16 code units (summarizer.ts:58, 63, 65), so outside the Basic Multilingual Plane the 300 and 500 bounds and the 20-character test differ, and `slice(0, 500)` can split a surrogate pair.
- Fetcher.GetExtension: lower-cases ASCII letters only. JavaScript's `toLowerCase` (github-fetcher.ts:103) maps every Unicode letter.
- Fetcher.FetchRepoFiles: the Octokit calls `repos.get` and `git.getTree` (github-fetcher.ts:32-46) can reject, for example for a missing repository or a failed request. The model does not represent that failure: it fails only on a URL that does not parse.
- MatchAt: it carries no contract. What it computes is stated by `Fetcher.MatchAtShape`.
- RepoUrl.CleanName: the name can come out empty, since a last piece of exactly `.git` gives an empty name. The source does the same, so this is stated rather than excluded.
- Aggregate.ChurnAvg: stated as a quotient over exact reals, not as the IEEE division the source performs.
- The comment on `strength` at src/lib/analysis/types.ts:11 gives a range of 0 to 1, but the code stores the rule's score there, from 2 to 7. The model follows the code.
- The comment at src/lib/analysis/classifier.ts:214 promises `api/users` for `app/api/users`, but the code returns `api`. The model follows the code (`ModuleNames.ExampleAppApi`).
- The `.github` alternative at src/lib/analysis/classifier.ts:94 has an unescaped dot, which matches any character. The model keeps the wildcard, as the code does (`Rules.GithubDotIsWildcard`).
