/** The regular expressions of the rule table, each shape written out as the
    predicate it decides. Every pattern of the table carries the `i` flag; the
    JavaScript engine then compares characters by their upper-case forms,
    which for the ASCII text of these patterns is ASCII case folding. */
module Patterns {
  import opened Strings

  /** One pattern character against one input character: an unescaped `.` is
      the wildcard (anything but a line terminator), any other character
      stands for itself, letters in either case. */
  predicate SymMatches(p: char, c: char) {
    if p == '.' then !IsLineTerminator(c) else Lower(p) == Lower(c)
  }

  /** `name`, read as pattern text, matches `s` starting at `i`. */
  predicate NameAt(s: string, i: nat, name: string) {
    i + |name| <= |s| && forall j :: 0 <= j < |name| ==> SymMatches(name[j], s[i + j])
  }

  /** `(^|\/)name(\/|$)` matches with the name starting at `i`. */
  predicate SegmentAt(s: string, i: nat, name: string) {
    && NameAt(s, i, name)
    && (i == 0 || s[i - 1] == '/')
    && (i + |name| == |s| || s[i + |name|] == '/')
  }

  predicate SegmentSomewhere(s: string, name: string) {
    exists i :: 0 <= i <= |s| && SegmentAt(s, i, name)
  }

  /** Literal prefix, with or without the `i` flag. */
  predicate LitPrefix(p: string, s: string, ci: bool) {
    if ci then CiPrefix(p, s) else p <= s
  }

  /** `p1.*p2.*…pn` matches at the very start of `s` (`.` never crosses a
      line terminator). */
  predicate ChainAt(s: string, pieces: seq<string>, ci: bool)
    decreases |pieces|, 0
  {
    pieces == [] || (LitPrefix(pieces[0], s, ci) && GapThen(s[|pieces[0]|..], pieces[1..], ci))
  }

  /** `.*p1.*…pn` matches at the very start of `s`. */
  predicate GapThen(s: string, pieces: seq<string>, ci: bool)
    decreases |pieces|, 1
  {
    pieces == [] || exists j :: 0 <= j <= |s| && OneLine(s[..j]) && ChainAt(s[j..], pieces, ci)
  }

  /** The unanchored `p1.*p2.*…pn` matches somewhere in `s`, as `test` searches. */
  predicate Search(s: string, pieces: seq<string>, ci: bool) {
    exists i :: 0 <= i <= |s| && ChainAt(s[i..], pieces, ci)
  }

  /** `t` is one of `stem.ext`, case-insensitively. */
  predicate IsFileName(t: string, stems: seq<string>, exts: seq<string>) {
    exists a :: 0 <= a < |stems| && exists b :: 0 <= b < |exts| && CiEq(t, stems[a] + "." + exts[b])
  }

  /** The shapes the table's regular expressions take. */
  datatype Regex =
      /** `(^|\/)(n1|n2|…)(\/|$)` */
    | SegmentOf(names: seq<string>)
      /** `(^|\/)(s1|…)\.(e1|…)$` */
    | FileNameOf(stems: seq<string>, exts: seq<string>)
      /** `^(n1|…|l1.*|…)$`: the whole text is a name, or a lead then one line */
    | WholeOf(names: seq<string>, leads: seq<string>)
      /** `^\.(n1|n2|…)$` */
    | DotExtOf(names: seq<string>)
      /** an unanchored alternation of `p1.*p2…` chains */
    | AnyOf(alternatives: seq<seq<string>>)

  /** `regex.test(s)` for a regular expression with the `i` flag. */
  predicate Test(re: Regex, s: string) {
    match re
    case SegmentOf(names) =>
      exists k :: 0 <= k < |names| && SegmentSomewhere(s, names[k])
    case FileNameOf(stems, exts) =>
      exists i :: 0 <= i <= |s| && (i == 0 || s[i - 1] == '/') && IsFileName(s[i..], stems, exts)
    case WholeOf(names, leads) =>
      || (exists k :: 0 <= k < |names| && CiEq(s, names[k]))
      || (exists k :: 0 <= k < |leads| && CiPrefix(leads[k], s) && OneLine(s[|leads[k]|..]))
    case DotExtOf(names) =>
      exists k :: 0 <= k < |names| && CiEq(s, "." + names[k])
    case AnyOf(alternatives) =>
      exists k :: 0 <= k < |alternatives| && Search(s, alternatives[k], true)
  }

  /** A segment name without the wildcard and without `/`. */
  predicate PlainName(name: string) {
    '.' !in name && '/' !in name
  }

  /** At the start of `s`, a plain name matches as a segment exactly when it
      equals the first `/`-piece. */
  lemma {:induction false} SegmentAtStart(s: string, name: string)
    requires PlainName(name)
    ensures SegmentAt(s, 0, name) <==> CiEq(Split(s, '/')[0], name)
  {
    if s != [] && s[0] != '/' && name != [] {
      var r := Split(s[1..], '/');
      assert Split(s, '/')[0] == [s[0]] + r[0];
      assert PlainName(name[1..]) by {
        assert forall c :: c in name[1..] ==> c in name;
      }
      SegmentAtStart(s[1..], name[1..]);
      if SegmentAt(s, 0, name) {
        assert SegmentAt(s[1..], 0, name[1..]) by {
          forall j | 0 <= j < |name[1..]| ensures SymMatches(name[1..][j], s[1..][j]) {
            assert SymMatches(name[j + 1], s[j + 1]);
          }
        }
      }
      if CiEq(Split(s, '/')[0], name) {
        assert CiEq(r[0], name[1..]) by {
          forall j | 0 <= j < |r[0]| ensures Lower(r[0][j]) == Lower(name[1..][j]) {
            assert ([s[0]] + r[0])[j + 1] == r[0][j];
          }
        }
        assert SegmentAt(s[1..], 0, name[1..]);
        forall j | 0 <= j < |name| ensures SymMatches(name[j], s[j]) {
          if j > 0 {
            assert SymMatches(name[1..][j - 1], s[1..][j - 1]);
          } else {
            assert ([s[0]] + r[0])[0] == s[0];
          }
        }
      }
    } else if s != [] && s[0] != '/' {
      assert Split(s, '/')[0] != [];
    } else if s != [] && name != [] {
      assert name[0] != '/' && name[0] != '.';
      assert !SymMatches(name[0], s[0]);
    }
  }

  /** Away from the start, a plain name matches as a segment exactly when it
      equals one of the later `/`-pieces. */
  lemma {:induction false} SegmentLater(s: string, name: string)
    requires PlainName(name)
    ensures (exists i :: 1 <= i <= |s| && SegmentAt(s, i, name)) <==>
            (exists k :: 1 <= k < |Split(s, '/')| && CiEq(Split(s, '/')[k], name))
  {
    if s != [] {
      SegmentLater(s[1..], name);
      if s[0] == '/' {
        SegmentLaterSlash(s, name);
      } else {
        SegmentLaterOther(s, name);
      }
    }
  }

  /** A match at `i >= 1` in `s` is a match at `i - 1` in its tail, and back,
      whenever the character before `i` is the same in both. */
  lemma SegmentShift(s: string, i: nat, name: string)
    requires s != [] && 1 <= i <= |s| && (i >= 2 || s[0] == '/')
    ensures SegmentAt(s, i, name) <==> SegmentAt(s[1..], i - 1, name)
  {
    var t := s[1..];
    if SegmentAt(s, i, name) {
      forall j | 0 <= j < |name| ensures SymMatches(name[j], t[i - 1 + j]) {
        assert t[i - 1 + j] == s[i + j];
      }
    }
    if SegmentAt(t, i - 1, name) {
      forall j | 0 <= j < |name| ensures SymMatches(name[j], s[i + j]) {
        assert t[i - 1 + j] == s[i + j];
      }
    }
  }

  /** The step of `SegmentLater` when `s` starts with `/`: the first piece is
      empty and every later piece of `s` is a piece of the tail. */
  lemma SegmentLaterSlash(s: string, name: string)
    requires PlainName(name) && s != [] && s[0] == '/'
    requires (exists i :: 1 <= i <= |s[1..]| && SegmentAt(s[1..], i, name)) <==>
             (exists k :: 1 <= k < |Split(s[1..], '/')| && CiEq(Split(s[1..], '/')[k], name))
    ensures (exists i :: 1 <= i <= |s| && SegmentAt(s, i, name)) <==>
            (exists k :: 1 <= k < |Split(s, '/')| && CiEq(Split(s, '/')[k], name))
  {
    SlashForward(s, name);
    SlashBackward(s, name);
  }

  /** A later segment of `s` is a later piece of it, given the same for its tail. */
  lemma SlashForward(s: string, name: string)
    requires PlainName(name) && s != [] && s[0] == '/'
    requires (exists i :: 1 <= i <= |s[1..]| && SegmentAt(s[1..], i, name)) ==>
             (exists k :: 1 <= k < |Split(s[1..], '/')| && CiEq(Split(s[1..], '/')[k], name))
    ensures (exists i :: 1 <= i <= |s| && SegmentAt(s, i, name)) ==>
            (exists k :: 1 <= k < |Split(s, '/')| && CiEq(Split(s, '/')[k], name))
  {
    SlashPieces(s);
    if exists i :: 1 <= i <= |s| && SegmentAt(s, i, name) {
      var i :| 1 <= i <= |s| && SegmentAt(s, i, name);
      SegmentShift(s, i, name);
      if i == 1 {
        SegmentAtStart(s[1..], name);
        assert CiEq(Split(s, '/')[1], name);
      } else {
        var k :| 1 <= k < |Split(s[1..], '/')| && CiEq(Split(s[1..], '/')[k], name);
        assert CiEq(Split(s, '/')[k + 1], name);
      }
    }
  }

  /** A later piece of `s` is a later segment of it, given the same for its tail. */
  lemma SlashBackward(s: string, name: string)
    requires PlainName(name) && s != [] && s[0] == '/'
    requires (exists k :: 1 <= k < |Split(s[1..], '/')| && CiEq(Split(s[1..], '/')[k], name)) ==>
             (exists i :: 1 <= i <= |s[1..]| && SegmentAt(s[1..], i, name))
    ensures (exists k :: 1 <= k < |Split(s, '/')| && CiEq(Split(s, '/')[k], name)) ==>
            (exists i :: 1 <= i <= |s| && SegmentAt(s, i, name))
  {
    var t := s[1..];
    var ps := Split(s, '/');
    var qs := Split(t, '/');
    SlashPieces(s);
    if exists k :: 1 <= k < |ps| && CiEq(ps[k], name) {
      var k :| 1 <= k < |ps| && CiEq(ps[k], name);
      assert ps[k] == qs[k - 1];
      if k == 1 {
        SegmentAtStart(t, name);
        SegmentShift(s, 1, name);
        assert SegmentAt(s, 1, name);
      } else {
        assert CiEq(qs[k - 1], name);
        var i :| 1 <= i <= |t| && SegmentAt(t, i, name);
        SegmentShift(s, i + 1, name);
        assert SegmentAt(s, i + 1, name);
      }
    }
  }

  /** When `s` starts with `/`, its pieces are an empty one and those of its tail. */
  lemma SlashPieces(s: string)
    requires s != [] && s[0] == '/'
    ensures |Split(s, '/')| == |Split(s[1..], '/')| + 1
    ensures forall k :: 1 <= k < |Split(s, '/')| ==> Split(s, '/')[k] == Split(s[1..], '/')[k - 1]
  {
  }

  /** The step of `SegmentLater` when `s` starts with another character: it
      only lengthens the first piece, and no segment can start at 1. */
  lemma SegmentLaterOther(s: string, name: string)
    requires PlainName(name) && s != [] && s[0] != '/'
    requires (exists i :: 1 <= i <= |s[1..]| && SegmentAt(s[1..], i, name)) <==>
             (exists k :: 1 <= k < |Split(s[1..], '/')| && CiEq(Split(s[1..], '/')[k], name))
    ensures (exists i :: 1 <= i <= |s| && SegmentAt(s, i, name)) <==>
            (exists k :: 1 <= k < |Split(s, '/')| && CiEq(Split(s, '/')[k], name))
  {
    OtherForward(s, name);
    OtherBackward(s, name);
  }

  /** A later segment of `s` is a later piece of it, given the same for its tail. */
  lemma OtherForward(s: string, name: string)
    requires PlainName(name) && s != [] && s[0] != '/'
    requires (exists i :: 1 <= i <= |s[1..]| && SegmentAt(s[1..], i, name)) ==>
             (exists k :: 1 <= k < |Split(s[1..], '/')| && CiEq(Split(s[1..], '/')[k], name))
    ensures (exists i :: 1 <= i <= |s| && SegmentAt(s, i, name)) ==>
            (exists k :: 1 <= k < |Split(s, '/')| && CiEq(Split(s, '/')[k], name))
  {
    LaterPieces(s);
    if exists i :: 1 <= i <= |s| && SegmentAt(s, i, name) {
      var i :| 1 <= i <= |s| && SegmentAt(s, i, name);
      SegmentShift(s, i, name);
    }
  }

  /** A later piece of `s` is a later segment of it, given the same for its tail. */
  lemma OtherBackward(s: string, name: string)
    requires PlainName(name) && s != [] && s[0] != '/'
    requires (exists k :: 1 <= k < |Split(s[1..], '/')| && CiEq(Split(s[1..], '/')[k], name)) ==>
             (exists i :: 1 <= i <= |s[1..]| && SegmentAt(s[1..], i, name))
    ensures (exists k :: 1 <= k < |Split(s, '/')| && CiEq(Split(s, '/')[k], name)) ==>
            (exists i :: 1 <= i <= |s| && SegmentAt(s, i, name))
  {
    LaterPieces(s);
    if exists k :: 1 <= k < |Split(s, '/')| && CiEq(Split(s, '/')[k], name) {
      var i :| 1 <= i <= |s[1..]| && SegmentAt(s[1..], i, name);
      SegmentShift(s, i + 1, name);
    }
  }

  /** When `s` does not start with `/`, its pieces after the first are
      those of its tail. */
  lemma LaterPieces(s: string)
    requires s != [] && s[0] != '/'
    ensures |Split(s, '/')| == |Split(s[1..], '/')|
    ensures forall k :: 1 <= k < |Split(s, '/')| ==> Split(s, '/')[k] == Split(s[1..], '/')[k]
  {
  }

  /** The meaning of `(^|\/)name(\/|$)` for a plain name: some `/`-separated
      segment of the text equals the name, case-insensitively. */
  lemma SegmentMeansSomePiece(s: string, name: string)
    requires PlainName(name)
    ensures SegmentSomewhere(s, name) <==>
            exists k :: 0 <= k < |Split(s, '/')| && CiEq(Split(s, '/')[k], name)
  {
    SegmentAtStart(s, name);
    SegmentLater(s, name);
  }
}
