/** Character classes and string operations with the meaning JavaScript gives
    them: `trim`, `split` on one character, `join`, `toLowerCase` on ASCII,
    and the regular-expression classes `\s`, `\w` and `.`. */
module Strings {

  /** Characters the regular-expression `.` refuses (line terminators). */
  predicate IsLineTerminator(c: char) {
    c == '\n' || c == '\r' || c == '\U{2028}' || c == '\U{2029}'
  }

  /** White space as `String.prototype.trim` and the class `\s` see it. */
  predicate IsSpace(c: char) {
    || IsLineTerminator(c)
    || c == '\t' || c == '\U{000B}' || c == '\U{000C}' || c == ' '
    || c == '\U{00A0}' || c == '\U{1680}' || ('\U{2000}' <= c <= '\U{200A}')
    || c == '\U{202F}' || c == '\U{205F}' || c == '\U{3000}' || c == '\U{FEFF}'
  }

  /** The class `\w`. */
  predicate IsWordChar(c: char) {
    ('a' <= c <= 'z') || ('A' <= c <= 'Z') || ('0' <= c <= '9') || c == '_'
  }

  /** True when no character of `s` is a line terminator, so `.*` can span it. */
  predicate OneLine(s: string) {
    forall i :: 0 <= i < |s| ==> !IsLineTerminator(s[i])
  }

  /** ASCII lower-casing of one character. */
  function Lower(c: char): char {
    if 'A' <= c <= 'Z' then (c as int + 32) as char else c
  }

  function LowerStr(s: string): (r: string)
    ensures |r| == |s|
    ensures forall i :: 0 <= i < |s| ==> r[i] == Lower(s[i])
  {
    seq(|s|, i requires 0 <= i < |s| => Lower(s[i]))
  }

  /** Case-insensitive equality, as a pattern with the `i` flag compares. */
  predicate CiEq(a: string, b: string) {
    |a| == |b| && forall i :: 0 <= i < |a| ==> Lower(a[i]) == Lower(b[i])
  }

  /** `p` is a case-insensitive prefix of `s`. */
  predicate CiPrefix(p: string, s: string) {
    |p| <= |s| && CiEq(p, s[..|p|])
  }

  predicate EndsWith(s: string, suffix: string) {
    |suffix| <= |s| && s[|s| - |suffix|..] == suffix
  }

  /** `String.prototype.includes`. */
  predicate Contains(s: string, p: string) {
    exists i :: 0 <= i <= |s| && p <= s[i..]
  }

  /** `s.indexOf(p)`: the first position where `p` occurs, or -1. */
  function IndexOfSub(s: string, p: string): (i: int)
    ensures -1 <= i <= |s|
    ensures i == -1 <==> !Contains(s, p)
    ensures i >= 0 ==> p <= s[i..] && forall j :: 0 <= j < i ==> !(p <= s[j..])
  {
    if p <= s then 0
    else if s == [] then -1
    else
      var r := IndexOfSub(s[1..], p);
      assert forall j :: 1 <= j <= |s| ==> s[j..] == s[1..][j - 1..];
      if r < 0 then -1 else r + 1
  }

  /** `p` occurs at `i` and nowhere before. */
  predicate FirstAt(s: string, p: string, i: nat)
    requires i <= |s|
  {
    p <= s[i..] && forall j :: 0 <= j < i ==> !(p <= s[j..])
  }

  /** `s.replace(p, rep)` with a string pattern: only the first occurrence is replaced. */
  function ReplaceFirst(s: string, p: string, rep: string): (r: string)
    ensures !Contains(s, p) ==> r == s
    ensures Contains(s, p) ==> exists i :: 0 <= i <= |s| - |p| && FirstAt(s, p, i) && r == s[..i] + rep + s[i + |p|..]
    ensures forall c :: c in r ==> c in s || c in rep
  {
    var i := IndexOfSub(s, p);
    if i < 0 then s
    else
      ReplaceAt(s, p, rep, i);
      s[..i] + rep + s[i + |p|..]
  }

  /** Replacing an occurrence of `p` at `i` brings in only characters of `s`
      and of `rep`. */
  lemma ReplaceAt(s: string, p: string, rep: string, i: nat)
    requires i <= |s| && p <= s[i..]
    ensures i <= |s| - |p|
    ensures forall c :: c in s[..i] + rep + s[i + |p|..] ==> c in s || c in rep
  {
    forall c | c in s[..i] + rep + s[i + |p|..] ensures c in s || c in rep {
      if c in s[..i] {
        var k :| 0 <= k < i && s[k] == c;
      } else if c in s[i + |p|..] {
        var k :| 0 <= k < |s| - i - |p| && s[i + |p|..][k] == c;
        assert s[i + |p| + k] == c;
      }
    }
  }

  /** Replacing the first `.git` of `a + ".git" + b` by nothing gives `a + b`
      when `a` holds no `.git` of its own: no occurrence can straddle the
      seam, because `.git` starts with the only `.` it contains. */
  lemma ReplaceFirstGit(a: string, b: string)
    requires !Contains(a, ".git")
    ensures ReplaceFirst(a + ".git" + b, ".git", "") == a + b
  {
    var s := a + ".git" + b;
    assert s[|a|..] == ".git" + b;
    assert ".git" <= s[|a|..];
    forall j | 0 <= j < |a| ensures !(".git" <= s[j..]) {
      NoGitBeforeSeam(a, b, j);
    }
    assert IndexOfSub(s, ".git") == |a|;
    assert s[..|a|] == a && s[|a| + 4..] == b;
  }

  /** No `.git` of `a + ".git" + b` starts inside `a`. */
  lemma NoGitBeforeSeam(a: string, b: string, j: nat)
    requires !Contains(a, ".git") && j < |a|
    ensures !(".git" <= (a + ".git" + b)[j..])
  {
    var s := a + ".git" + b;
    if j + 4 <= |a| {
      assert !(".git" <= a[j..]);
      assert s[j..][..4] == a[j..][..4];
    } else {
      var d := |a| - j;
      assert s[j + d] == '.';
      assert ".git"[d] != '.';
    }
  }

  /** The suffix case: `n + ".git"` loses exactly its suffix. */
  lemma StripGitSuffix(n: string)
    requires !Contains(n, ".git")
    ensures ReplaceFirst(n + ".git", ".git", "") == n
  {
    ReplaceFirstGit(n, "");
    assert n + ".git" + "" == n + ".git" && n + "" == n;
  }

  function CountChar(s: string, c: char): (n: nat)
    ensures n <= |s|
    ensures n == 0 <==> c !in s
  {
    if s == [] then 0 else (if s[0] == c then 1 else 0) + CountChar(s[1..], c)
  }

  /** Counting over a concatenation adds up the two counts. */
  lemma {:induction false} CountCharAppend(a: string, b: string, c: char)
    ensures CountChar(a + b, c) == CountChar(a, c) + CountChar(b, c)
  {
    if a == [] {
      assert a + b == b;
    } else {
      assert (a + b)[0] == a[0] && (a + b)[1..] == a[1..] + b;
      CountCharAppend(a[1..], b, c);
    }
  }

  /** The first `n` characters, as `slice(0, n)` gives them. */
  function Take(s: string, n: nat): (r: string)
    ensures |r| <= n && r <= s
    ensures |s| <= n ==> r == s
    ensures |r| == if |s| <= n then |s| else n
  {
    if |s| <= n then s else s[..n]
  }

  /** `s` without its leading white space. */
  function TrimStart(s: string): (r: string)
    ensures |r| <= |s| && r == s[|s| - |r|..]
    ensures forall i :: 0 <= i < |s| - |r| ==> IsSpace(s[i])
    ensures r == [] || !IsSpace(r[0])
  {
    if s != [] && IsSpace(s[0]) then TrimStart(s[1..]) else s
  }

  /** `s` without its trailing white space. */
  function TrimEnd(s: string): (r: string)
    ensures |r| <= |s| && r == s[..|r|]
    ensures forall i :: |r| <= i < |s| ==> IsSpace(s[i])
    ensures r == [] || !IsSpace(r[|r| - 1])
  {
    if s != [] && IsSpace(s[|s| - 1]) then TrimEnd(s[..|s| - 1]) else s
  }

  /** `r` is the slice of `s` starting at `a` with only white space around it. */
  predicate TrimmedAt(s: string, r: string, a: nat) {
    && a + |r| <= |s| && r == s[a..a + |r|]
    && (forall i :: 0 <= i < a ==> IsSpace(s[i]))
    && (forall i :: a + |r| <= i < |s| ==> IsSpace(s[i]))
  }

  /** `String.prototype.trim`: the slice of `s` left once its leading and
      trailing white space are cut away. */
  function Trim(s: string): (r: string)
    ensures r == [] <==> forall i :: 0 <= i < |s| ==> IsSpace(s[i])
    ensures r == [] || (!IsSpace(r[0]) && !IsSpace(r[|r| - 1]))
    ensures TrimmedAt(s, r, LeadingSpace(s))
  {
    var r := TrimEnd(TrimStart(s));
    TrimBothEnds(s);
    TrimSlice(s);
    r
  }

  /** How many white-space characters `s` starts with. */
  function LeadingSpace(s: string): (a: nat)
    ensures a <= |s|
    ensures forall i :: 0 <= i < a ==> IsSpace(s[i])
    ensures a == |s| || !IsSpace(s[a])
  {
    |s| - |TrimStart(s)|
  }

  /** Trimming both ends cuts only white space off either side of `s`. */
  lemma TrimSlice(s: string)
    ensures TrimmedAt(s, TrimEnd(TrimStart(s)), LeadingSpace(s))
  {
    var t := TrimStart(s);
    SpaceAround(s, t, TrimEnd(t), LeadingSpace(s));
  }

  /** Cutting white space off the front and then off the back leaves a slice
      with only white space around it. */
  lemma SpaceAround(s: string, t: string, r: string, a: nat)
    requires a <= |s| && t == s[a..] && (forall i :: 0 <= i < a ==> IsSpace(s[i]))
    requires |r| <= |t| && r == t[..|r|] && (forall i :: |r| <= i < |t| ==> IsSpace(t[i]))
    ensures TrimmedAt(s, r, a)
  {
    assert s[a..][..|r|] == s[a..a + |r|];
    forall i | a + |r| <= i < |s| ensures IsSpace(s[i]) {
      assert s[i] == t[i - a];
    }
  }

  /** Trimming both ends leaves nothing exactly when all is white space, and
      otherwise a text that starts and ends with something else. */
  lemma TrimBothEnds(s: string)
    ensures var r := TrimEnd(TrimStart(s));
      (r == [] <==> forall i :: 0 <= i < |s| ==> IsSpace(s[i])) &&
      (r == [] || (!IsSpace(r[0]) && !IsSpace(r[|r| - 1])))
  {
    var t := TrimStart(s);
    var r := TrimEnd(t);
    if r != [] {
      assert r[0] == t[0] == s[|s| - |t|];
    }
  }

  /** `parts.join(sep)`. */
  function Join(parts: seq<string>, sep: string): string {
    if parts == [] then ""
    else if |parts| == 1 then parts[0]
    else parts[0] + sep + Join(parts[1..], sep)
  }

  /** `s.split(c)` for a one-character separator: never empty, no piece holds
      `c`, and joining the pieces back with `c` gives `s`. */
  function Split(s: string, c: char): (parts: seq<string>)
    ensures |parts| >= 1
    ensures forall k :: 0 <= k < |parts| ==> c !in parts[k]
    ensures Join(parts, [c]) == s
  {
    if s == [] then [""]
    else
      var rest := Split(s[1..], c);
      if s[0] == c then [""] + rest
      else [[s[0]] + rest[0]] + rest[1..]
  }

  /** Splitting yields one more piece than there are separators. */
  lemma {:induction false} SplitCount(s: string, c: char)
    ensures |Split(s, c)| == CountChar(s, c) + 1
  {
    if s != [] {
      SplitCount(s[1..], c);
    }
  }

  /** Gluing a separator-free text in front of `rest` only extends the first piece. */
  lemma {:induction false} SplitGlue(x: string, rest: string, c: char)
    requires c !in x
    ensures Split(x + rest, c) == [x + Split(rest, c)[0]] + Split(rest, c)[1..]
  {
    if x != [] {
      assert (x + rest)[1..] == x[1..] + rest;
      assert (x + rest)[0] == x[0] && x[0] != c;
      SplitGlue(x[1..], rest, c);
      var r := Split(rest, c);
      var tail := Split(x[1..] + rest, c);
      assert tail[0] == x[1..] + r[0] && tail[1..] == r[1..];
      assert [x[0]] + (x[1..] + r[0]) == x + r[0];
    } else {
      var r := Split(rest, c);
      assert x + rest == rest;
      assert x + r[0] == r[0];
      assert [r[0]] + r[1..] == r;
    }
  }

  /** `split` undoes `join` on separator-free pieces. */
  lemma {:induction false} SplitJoin(parts: seq<string>, c: char)
    requires |parts| >= 1
    requires forall k :: 0 <= k < |parts| ==> c !in parts[k]
    ensures Split(Join(parts, [c]), c) == parts
  {
    if |parts| == 1 {
      SplitGlue(parts[0], "", c);
      assert parts[0] + "" == parts[0];
    } else {
      var tail := Join(parts[1..], [c]);
      SplitJoin(parts[1..], c);
      assert Join(parts, [c]) == parts[0] + ([c] + tail);
      SplitGlue(parts[0], [c] + tail, c);
      assert ([c] + tail)[1..] == tail;
      assert ([c] + tail)[0] == c;
      assert Split([c] + tail, c) == [""] + Split(tail, c);
      assert parts[0] + "" == parts[0];
      assert [parts[0]] + parts[1..] == parts;
    }
  }

  /** Joining one more piece appends the separator and the piece. */
  lemma {:induction false} JoinSnoc(parts: seq<string>, x: string, sep: string)
    requires parts != []
    ensures Join(parts + [x], sep) == Join(parts, sep) + sep + x
  {
    if |parts| == 1 {
      assert (parts + [x])[1..] == [x];
    } else {
      assert (parts + [x])[1..] == parts[1..] + [x];
      JoinSnoc(parts[1..], x, sep);
    }
  }

  /** The last piece of a split is what follows the last separator, or the
      whole text when there is no separator. */
  lemma SplitLast(s: string, c: char)
    ensures var ps := Split(s, c); var t := ps[|ps| - 1];
      (|ps| == 1 ==> t == s) &&
      (|ps| > 1 ==> |t| < |s| && s[|s| - |t| - 1] == c && s[|s| - |t|..] == t)
  {
    var ps := Split(s, c);
    var t := ps[|ps| - 1];
    if |ps| > 1 {
      var front := ps[..|ps| - 1];
      assert ps == front + [t];
      JoinSnoc(front, t, [c]);
      assert s == Join(front, [c]) + [c] + t;
    }
  }

  /** The join of the pieces is the join of a front part, the separator, and
      the join of the rest. */
  lemma {:induction false} JoinSplitAt(parts: seq<string>, sep: string, k: nat)
    requires 1 <= k < |parts|
    ensures Join(parts, sep) == Join(parts[..k], sep) + sep + Join(parts[k..], sep)
  {
    if k == 1 {
      assert parts[..1] == [parts[0]];
      assert parts[1..] == parts[k..];
    } else {
      JoinSplitAt(parts[1..], sep, k - 1);
      assert parts[..k][1..] == parts[1..][..k - 1];
      assert parts[1..][k - 1..] == parts[k..];
    }
  }

  /** Joining a non-empty front part of the pieces gives a prefix of the whole join. */
  lemma {:induction false} JoinPrefix(parts: seq<string>, sep: string, k: nat)
    requires 1 <= k <= |parts|
    ensures Join(parts[..k], sep) <= Join(parts, sep)
  {
    if k < |parts| {
      if k == 1 {
        assert parts[..1] == [parts[0]];
      } else {
        JoinPrefix(parts[1..], sep, k - 1);
        assert parts[..k][1..] == parts[1..][..k - 1];
      }
    } else {
      assert parts[..k] == parts;
    }
  }
}
