/** The line arithmetic the scanner and the GitHub fetcher share:
    `content.split('\n')`, its length as the line count, and the first fifty
    lines joined back as the snippet (src/lib/analysis/scanner.ts and
    src/lib/analysis/github-fetcher.ts). */
module Lines {
  import opened Strings

  /** The most lines a snippet keeps. */
  const SnippetLines: nat := 50

  /** `content.split('\n').length`: one more than the number of newlines,
      so never below 1, even for an empty file. */
  function LineCount(content: string): (n: nat)
    ensures n == CountChar(content, '\n') + 1
    ensures n >= 1
  {
    SplitCount(content, '\n');
    |Split(content, '\n')|
  }

  /** `lines.slice(0, 50).join('\n')`: a prefix of the content holding its
      first fifty lines, and all of it when it has no more. The prefix ends at
      a line break, so it holds whole lines only. */
  function Snippet(content: string): (s: string)
    ensures s <= content
    ensures LineCount(content) <= SnippetLines ==> s == content
    ensures LineCount(s) == if LineCount(content) < SnippetLines then LineCount(content) else SnippetLines
    ensures |s| == |content| || content[|s|] == '\n'
  {
    var ls := Split(content, '\n');
    var k := if |ls| < SnippetLines then |ls| else SnippetLines;
    JoinPrefix(ls, "\n", k);
    var s := Join(ls[..k], "\n");
    assert ls[..|ls|] == ls;
    assert |s| == |content| || content[|s|] == '\n' by {
      assert Join(ls, "\n") == content;
      if k < |ls| {
        JoinSplitAt(ls, "\n", k);
        assert content == s + "\n" + Join(ls[k..], "\n");
      }
    }
    assert forall j :: 0 <= j < k ==> '\n' !in ls[..k][j];
    SplitJoin(ls[..k], '\n');
    Join(ls[..k], "\n")
  }

  /** The snippet is the only prefix of the content that ends at a line
      break (or at the end) and holds its first fifty lines. */
  lemma SnippetUnique(content: string, p: string)
    requires p <= content && (|p| == |content| || content[|p|] == '\n')
    requires LineCount(p) == if LineCount(content) < SnippetLines then LineCount(content) else SnippetLines
    ensures p == Snippet(content)
  {
    var s := Snippet(content);
    if |p| < |s| {
      BreakPrefixes(content, p, s);
    } else if |s| < |p| {
      BreakPrefixes(content, s, p);
    } else {
      assert p == content[..|p|] == s;
    }
  }

  /** A longer prefix that reaches past a line break holds more lines. */
  lemma BreakPrefixes(content: string, p: string, q: string)
    requires p <= q <= content && |p| < |q|
    requires content[|p|] == '\n'
    ensures CountChar(p, '\n') < CountChar(q, '\n')
  {
    assert q == p + q[|p|..];
    CountCharAppend(p, q[|p|..], '\n');
    assert q[|p|..][0] == '\n';
  }
}
