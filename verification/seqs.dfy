/** Sequence folds shared by the model: filtering, summing, first-seen
    de-duplication, an insertion-ordered counter and the strict-`>` maximum
    scan that every "pick the best" loop of the repository uses. */
module Seqs {

  function Map<A, B>(s: seq<A>, f: A -> B): (r: seq<B>)
    ensures |r| == |s|
    ensures forall i :: 0 <= i < |s| ==> r[i] == f(s[i])
  {
    seq(|s|, i requires 0 <= i < |s| => f(s[i]))
  }

  lemma MapAppend<A, B>(a: seq<A>, b: seq<A>, f: A -> B)
    ensures Map(a + b, f) == Map(a, f) + Map(b, f)
  {
  }

  /** `s.filter(p)`. */
  function Filter<T>(s: seq<T>, p: T -> bool): (r: seq<T>)
    ensures |r| <= |s|
    ensures forall i :: 0 <= i < |r| ==> p(r[i]) && r[i] in s
  {
    if s == [] then [] else (if p(s[0]) then [s[0]] else []) + Filter(s[1..], p)
  }

  /** Mapping a non-empty sequence maps its head, then its tail. */
  lemma MapCons<A, B>(s: seq<A>, f: A -> B)
    requires s != []
    ensures Map(s, f) == [f(s[0])] + Map(s[1..], f)
  {
    var r := [f(s[0])] + Map(s[1..], f);
    forall i | 0 <= i < |s| ensures Map(s, f)[i] == r[i] {
      if i > 0 {
        assert r[i] == Map(s[1..], f)[i - 1] && s[1..][i - 1] == s[i];
      }
    }
  }

  /** Appending an element that satisfies `p` keeps every element satisfying it. */
  lemma AllSnoc<T>(xs: seq<T>, x: T, p: T -> bool)
    requires forall k :: 0 <= k < |xs| ==> p(xs[k])
    requires p(x)
    ensures forall k :: 0 <= k < |xs + [x]| ==> p((xs + [x])[k])
  {
    forall k | 0 <= k < |xs + [x]| ensures p((xs + [x])[k]) {
      if k < |xs| {
        assert (xs + [x])[k] == xs[k];
      }
    }
  }

  /** Nothing that passes is dropped. */
  lemma {:induction false} FilterKeeps<T>(s: seq<T>, p: T -> bool)
    ensures forall x :: x in s && p(x) ==> x in Filter(s, p)
  {
    if s != [] {
      FilterKeeps(s[1..], p);
      assert forall x :: x in s ==> x == s[0] || x in s[1..];
    }
  }

  lemma {:induction false} FilterAppend<T>(a: seq<T>, b: seq<T>, p: T -> bool)
    ensures Filter(a + b, p) == Filter(a, p) + Filter(b, p)
  {
    if a == [] {
      assert a + b == b;
    } else {
      assert (a + b)[1..] == a[1..] + b;
      FilterAppend(a[1..], b, p);
    }
  }

  /** A prefix no longer than `a` of `a + b` is a prefix of `a`. */
  lemma TakeAppend<T>(a: seq<T>, b: seq<T>, n: nat)
    requires n <= |a|
    ensures (a + b)[..n] == a[..n]
  {
  }

  /** Filtering one more element appends it exactly when it passes. */
  lemma FilterSnoc<T>(s: seq<T>, x: T, p: T -> bool)
    ensures Filter(s + [x], p) == Filter(s, p) + if p(x) then [x] else []
  {
    FilterAppend(s, [x], p);
    assert Filter([x], p) == (if p(x) then [x] else []) + Filter([], p);
  }

  /** Filtering with a predicate every element satisfies changes nothing. */
  lemma {:induction false} FilterAll<T>(s: seq<T>, p: T -> bool)
    requires forall i :: 0 <= i < |s| ==> p(s[i])
    ensures Filter(s, p) == s
  {
    if s != [] {
      FilterAll(s[1..], p);
      assert [s[0]] + s[1..] == s;
    }
  }

  /** Filtering keeps exactly the elements that satisfy the predicate. */
  lemma {:induction false} FilterMembers<T>(s: seq<T>, p: T -> bool, x: T)
    ensures x in Filter(s, p) <==> x in s && p(x)
  {
    if s != [] {
      FilterMembers(s[1..], p, x);
      assert s == [s[0]] + s[1..];
    }
  }

  /** The sum of `f` over `s`, as a `reduce` or `forEach` accumulation gives it. */
  function Sum<T>(s: seq<T>, f: T -> nat): nat {
    if s == [] then 0 else f(s[0]) + Sum(s[1..], f)
  }

  lemma {:induction false} SumAppend<T>(a: seq<T>, b: seq<T>, f: T -> nat)
    ensures Sum(a + b, f) == Sum(a, f) + Sum(b, f)
  {
    if a == [] {
      assert a + b == b;
    } else {
      assert (a + b)[1..] == a[1..] + b;
      SumAppend(a[1..], b, f);
    }
  }

  /** A sum does not depend on the order of the summands. */
  lemma {:induction false} SumPermutation<T>(a: seq<T>, b: seq<T>, f: T -> nat)
    requires multiset(a) == multiset(b)
    ensures Sum(a, f) == Sum(b, f)
    decreases |a|
  {
    if a == [] {
      assert |multiset(b)| == 0;
    } else {
      var x := a[0];
      assert x in multiset(b);
      var i :| 0 <= i < |b| && b[i] == x;
      var rest := b[..i] + b[i + 1..];
      MultisetRemove(b, i);
      MultisetTail(a);
      SumRemove(b, i, f);
      SumPermutation(a[1..], rest, f);
    }
  }

  /** Taking out the element at `i` takes one copy of it out of the multiset. */
  lemma MultisetRemove<T>(b: seq<T>, i: nat)
    requires i < |b|
    ensures multiset(b[..i] + b[i + 1..]) == multiset(b) - multiset{b[i]}
  {
    assert b == b[..i] + [b[i]] + b[i + 1..];
    assert multiset(b) == multiset(b[..i]) + multiset{b[i]} + multiset(b[i + 1..]);
  }

  /** The tail's multiset lacks one copy of the head. */
  lemma MultisetTail<T>(a: seq<T>)
    requires a != []
    ensures multiset(a[1..]) == multiset(a) - multiset{a[0]}
  {
    assert a == [a[0]] + a[1..];
  }

  /** Taking out the element at `i` takes its summand out of the sum. */
  lemma SumRemove<T>(b: seq<T>, i: nat, f: T -> nat)
    requires i < |b|
    ensures Sum(b, f) == f(b[i]) + Sum(b[..i] + b[i + 1..], f)
  {
    assert b == b[..i] + [b[i]] + b[i + 1..];
    SumAppend(b[..i] + [b[i]], b[i + 1..], f);
    SumAppend(b[..i], [b[i]], f);
    SumAppend(b[..i], b[i + 1..], f);
  }

  /** The index of the first occurrence of `x`. */
  function IndexOf<T(==)>(s: seq<T>, x: T): (i: nat)
    requires x in s
    ensures i < |s| && s[i] == x
    ensures forall j :: 0 <= j < i ==> s[j] != x
  {
    if s[0] == x then 0 else 1 + IndexOf(s[1..], x)
  }

  lemma IndexOfAppend<T>(s: seq<T>, t: seq<T>, x: T)
    requires x in s
    ensures IndexOf(s + t, x) == IndexOf(s, x)
  {
    var i := IndexOf(s, x);
    assert (s + t)[i] == x;
  }

  predicate Distinct<T(==)>(s: seq<T>) {
    forall i, j :: 0 <= i < j < |s| ==> s[i] != s[j]
  }

  /** The elements of `s` without repeats, each kept where it first occurs: the
      key order of a JavaScript `Map` or object filled from `s`. */
  function FirstSeen<T(==)>(s: seq<T>): (r: seq<T>)
    ensures Distinct(r)
  {
    if s == [] then []
    else
      var r := FirstSeen(s[..|s| - 1]);
      if s[|s| - 1] in r then r else r + [s[|s| - 1]]
  }

  /** `FirstSeen` keeps exactly the elements of `s`. */
  lemma {:induction false} FirstSeenMembers<T>(s: seq<T>, y: T)
    ensures y in FirstSeen(s) <==> y in s
  {
    if s != [] {
      var s' := s[..|s| - 1];
      assert s == s' + [s[|s| - 1]];
      FirstSeenMembers(s', y);
    }
  }

  /** `FirstSeen` orders the elements by where each first occurs in `s`. */
  lemma {:induction false} FirstSeenOrder<T>(s: seq<T>)
    ensures forall i :: 0 <= i < |FirstSeen(s)| ==> FirstSeen(s)[i] in s
    ensures forall i, j :: 0 <= i < j < |FirstSeen(s)| ==> IndexOf(s, FirstSeen(s)[i]) < IndexOf(s, FirstSeen(s)[j])
  {
    if s != [] {
      var s' := s[..|s| - 1];
      var x := s[|s| - 1];
      assert s == s' + [x];
      FirstSeenOrder(s');
      var r := FirstSeen(s');
      forall k | 0 <= k < |r| ensures r[k] in s' && IndexOf(s, r[k]) == IndexOf(s', r[k]) {
        FirstSeenMembers(s', r[k]);
        IndexOfAppend(s', [x], r[k]);
      }
      if x !in r {
        FirstSeenMembers(s', x);
        assert IndexOf(s, x) == |s'|;
        assert FirstSeen(s) == r + [x];
      }
    }
  }

  /** The keys of an insertion-ordered counter, in order. */
  function Keys<K>(t: seq<(K, nat)>): (ks: seq<K>)
    ensures |ks| == |t|
    ensures forall i :: 0 <= i < |t| ==> ks[i] == t[i].0
  {
    seq(|t|, i requires 0 <= i < |t| => t[i].0)
  }

  /** An insertion-ordered counter: the key counts of an object filled by
      `c[k] = (c[k] || 0) + 1` for each `k` of `s` in turn. */
  function Tally<K(==)>(s: seq<K>): (t: seq<(K, nat)>)
    ensures Distinct(Keys(t))
  {
    if s == [] then []
    else Bump(Tally(s[..|s| - 1]), s[|s| - 1])
  }

  /** The counter's keys are the distinct elements of `s`, in first-seen order. */
  lemma {:induction false} TallyKeys<K>(s: seq<K>)
    ensures Keys(Tally(s)) == FirstSeen(s)
  {
    if s != [] {
      TallyKeys(s[..|s| - 1]);
    }
  }

  /** Each key's count is the number of times it occurs in `s`. */
  lemma {:induction false} TallyCounts<K>(s: seq<K>)
    ensures forall i :: 0 <= i < |Tally(s)| ==> Tally(s)[i].1 == multiset(s)[Tally(s)[i].0] >= 1
  {
    if s != [] {
      var s' := s[..|s| - 1];
      var x := s[|s| - 1];
      assert s == s' + [x];
      TallyCounts(s');
      TallyKeys(s');
      forall i | 0 <= i < |Tally(s)| ensures Tally(s)[i].1 == multiset(s)[Tally(s)[i].0] >= 1 {
        CountAfterBump(s', x, i);
      }
    }
  }

  /** One counting step keeps every count equal to the number of occurrences. */
  lemma CountAfterBump<K>(s: seq<K>, x: K, i: nat)
    requires Keys(Tally(s)) == FirstSeen(s)
    requires forall j :: 0 <= j < |Tally(s)| ==> Tally(s)[j].1 == multiset(s)[Tally(s)[j].0]
    requires i < |Bump(Tally(s), x)|
    ensures Bump(Tally(s), x)[i].1 == multiset(s + [x])[Bump(Tally(s), x)[i].0] >= 1
  {
    var t := Tally(s);
    var k := Bump(t, x)[i].0;
    assert multiset(s + [x]) == multiset(s) + multiset{x};
    if i < |t| {
      assert k == t[i].0;
      FirstSeenMembers(s, k);
      assert k in s;
    } else {
      FirstSeenMembers(s, x);
      assert multiset(s)[x] == 0;
    }
  }

  /** `counter.get(k) || 0`: the count of the first entry for `k`, or 0. */
  function Lookup<K(==)>(t: seq<(K, nat)>, k: K): (n: nat)
    ensures k !in Keys(t) ==> n == 0
  {
    if t == [] then 0
    else if t[0].0 == k then t[0].1
    else
      assert Keys(t) == [t[0].0] + Keys(t[1..]);
      Lookup(t[1..], k)
  }

  /** One counting step raises the count of its key by one and no other. */
  lemma {:induction false} LookupBump<K>(t: seq<(K, nat)>, k: K, x: K)
    requires Distinct(Keys(t))
    ensures Lookup(Bump(t, k), x) == Lookup(t, x) + if x == k then 1 else 0
  {
    if t != [] && t[0].0 != k {
      KeysTail(t);
      BumpTail(t, k);
      LookupBump(t[1..], k, x);
    } else if t != [] {
      if x == k {
        assert Bump(t, k)[0] == (k, t[0].1 + 1);
      } else {
        KeysTail(t);
        assert Lookup(Bump(t, k), x) == Lookup(Bump(t, k)[1..], x);
        assert Bump(t, k)[1..] == t[1..];
      }
    }
  }

  /** Looking a key up in the counter of `s` gives its number of occurrences. */
  lemma {:induction false} LookupTally<K>(s: seq<K>, x: K)
    ensures Lookup(Tally(s), x) == multiset(s)[x]
  {
    if s != [] {
      var s' := s[..|s| - 1];
      assert s == s' + [s[|s| - 1]];
      assert multiset(s) == multiset(s') + multiset{s[|s| - 1]};
      LookupTally(s', x);
      LookupBump(Tally(s'), s[|s| - 1], x);
    }
  }

  /** The strict-`>` scan over a counter of a non-empty sequence ends on an
      element of the sequence that occurs at least as often as any other,
      and among those that occur as often, on the one that appears first. */
  lemma TallyMax<K>(s: seq<K>, best: K)
    requires s != []
    ensures FirstMax(Tally(s), best, 0).0 in s
    ensures forall x :: multiset(s)[x] <= multiset(s)[FirstMax(Tally(s), best, 0).0]
    ensures forall x :: x in s && multiset(s)[x] == multiset(s)[FirstMax(Tally(s), best, 0).0] ==>
      IndexOf(s, FirstMax(Tally(s), best, 0).0) <= IndexOf(s, x)
  {
    CounterFacts(s);
    assert s[0] in Keys(Tally(s));
    CounterMax(s, Tally(s), best);
  }

  /** `TallyMax` over any counter whose entries are the elements of `s` in
      first-occurrence order with their numbers of occurrences. */
  lemma CounterMax<K>(s: seq<K>, t: seq<(K, nat)>, best: K)
    requires s != []
    requires forall i :: 0 <= i < |t| ==> t[i].0 in s && t[i].1 == multiset(s)[t[i].0] >= 1
    requires forall y :: y in s ==> y in Keys(t)
    requires forall i, j :: 0 <= i < j < |t| ==> IndexOf(s, t[i].0) < IndexOf(s, t[j].0)
    ensures FirstMax(t, best, 0).0 in s
    ensures forall x :: multiset(s)[x] <= multiset(s)[FirstMax(t, best, 0).0]
    ensures forall x :: x in s && multiset(s)[x] == multiset(s)[FirstMax(t, best, 0).0] ==>
      IndexOf(s, FirstMax(t, best, 0).0) <= IndexOf(s, x)
  {
    assert s[0] in Keys(t);
    var k := FirstMaxIndex(t, best, 0);
    forall x ensures multiset(s)[x] <= multiset(s)[t[k].0]
      && (x in s && multiset(s)[x] == multiset(s)[t[k].0] ==> IndexOf(s, t[k].0) <= IndexOf(s, x))
    {
      CounterMaxAt(s, t, k, x);
    }
  }

  /** Where the scan ends when the first entry beats `top`: the first largest entry. */
  lemma FirstMaxIndex<K>(t: seq<(K, int)>, best: K, top: int) returns (k: nat)
    requires t != [] && t[0].1 > top
    ensures k < |t| && t[k] == FirstMax(t, best, top)
    ensures forall i :: 0 <= i < |t| ==> t[i].1 <= t[k].1
    ensures forall i :: 0 <= i < k ==> t[i].1 < t[k].1
  {
    k :| 0 <= k < |t| && t[k] == FirstMax(t, best, top) && forall i :: 0 <= i < k ==> t[i].1 < t[k].1;
  }

  /** What `TallyKeys`, `TallyCounts` and `FirstSeenOrder` say about the
      counter, entry by entry. */
  lemma CounterFacts<K>(s: seq<K>)
    ensures forall i :: 0 <= i < |Tally(s)| ==> Tally(s)[i].0 in s && Tally(s)[i].1 == multiset(s)[Tally(s)[i].0] >= 1
    ensures forall y :: y in s ==> y in Keys(Tally(s))
    ensures forall i, j :: 0 <= i < j < |Tally(s)| ==> IndexOf(s, Tally(s)[i].0) < IndexOf(s, Tally(s)[j].0)
  {
    var t := Tally(s);
    TallyKeys(s);
    TallyCounts(s);
    FirstSeenOrder(s);
    assert forall i :: 0 <= i < |t| ==> t[i].0 == FirstSeen(s)[i];
    forall y | y in s ensures y in Keys(t) {
      FirstSeenMembers(s, y);
    }
  }

  /** The maximum argument for one element `x`, over any counter whose
      entries are the elements of `s` in first-occurrence order with their
      numbers of occurrences, when entry `k` is the first largest. */
  lemma CounterMaxAt<K>(s: seq<K>, t: seq<(K, nat)>, k: nat, x: K)
    requires forall i :: 0 <= i < |t| ==> t[i].0 in s && t[i].1 == multiset(s)[t[i].0]
    requires forall y :: y in s ==> y in Keys(t)
    requires forall i, j :: 0 <= i < j < |t| ==> IndexOf(s, t[i].0) < IndexOf(s, t[j].0)
    requires k < |t|
    requires forall i :: 0 <= i < |t| ==> t[i].1 <= t[k].1
    requires forall i :: 0 <= i < k ==> t[i].1 < t[k].1
    ensures multiset(s)[x] <= multiset(s)[t[k].0]
    ensures x in s && multiset(s)[x] == multiset(s)[t[k].0] ==> IndexOf(s, t[k].0) <= IndexOf(s, x)
  {
    if x in s {
      var j :| 0 <= j < |t| && Keys(t)[j] == x;
      if multiset(s)[x] == multiset(s)[t[k].0] && j != k {
        assert j > k;
      }
    }
  }

  /** One counting step: add one to `k`'s entry, or append `k` with count 1. */
  function Bump<K(==)>(t: seq<(K, nat)>, k: K): (r: seq<(K, nat)>)
    ensures Keys(r) == if k in Keys(t) then Keys(t) else Keys(t) + [k]
    ensures forall i :: 0 <= i < |t| ==> r[i] == (t[i].0, t[i].1 + if t[i].0 == k then 1 else 0)
    ensures k !in Keys(t) ==> r[|t|] == (k, 1)
  {
    if k in Keys(t) then
      var r := seq(|t|, i requires 0 <= i < |t| => (t[i].0, t[i].1 + if t[i].0 == k then 1 else 0));
      assert Keys(r) == Keys(t);
      r
    else
      var r := t + [(k, 1)];
      assert Keys(r) == Keys(t) + [k];
      r
  }

  /** The keys of all entries but the first: still distinct, and without
      the first key. */
  lemma KeysTail<K>(t: seq<(K, nat)>)
    requires t != [] && Distinct(Keys(t))
    ensures Distinct(Keys(t[1..]))
    ensures Keys(t) == [t[0].0] + Keys(t[1..])
    ensures t[0].0 !in Keys(t[1..])
  {
    assert Keys(t) == [t[0].0] + Keys(t[1..]);
    forall j | 0 <= j < |t| - 1 ensures Keys(t[1..])[j] != t[0].0 {
      assert Keys(t)[0] != Keys(t)[j + 1];
    }
  }

  /** Bumping a counter whose first key is another one leaves that entry and
      bumps the rest. */
  lemma BumpTail<K>(t: seq<(K, nat)>, k: K)
    requires t != [] && t[0].0 != k
    ensures Bump(t, k) == [t[0]] + Bump(t[1..], k)
  {
    KeysCons(t);
    if k in Keys(t[1..]) {
      BumpTailOld(t, k);
    } else {
      BumpTailNew(t, k);
    }
  }

  /** `BumpTail` when the key is new. */
  lemma BumpTailNew<K>(t: seq<(K, nat)>, k: K)
    requires t != [] && k !in Keys(t) && k !in Keys(t[1..])
    ensures Bump(t, k) == [t[0]] + Bump(t[1..], k)
  {
    assert Bump(t, k) == t + [(k, 1)];
    assert Bump(t[1..], k) == t[1..] + [(k, 1)];
    assert t == [t[0]] + t[1..];
  }

  /** `BumpTail` when the key is already counted further on. */
  lemma BumpTailOld<K>(t: seq<(K, nat)>, k: K)
    requires t != [] && t[0].0 != k && k in Keys(t) && k in Keys(t[1..])
    ensures Bump(t, k) == [t[0]] + Bump(t[1..], k)
  {
    var r, rest := Bump(t, k), Bump(t[1..], k);
    assert |r| == |rest| + 1;
    forall i | 0 <= i < |r| ensures r[i] == ([t[0]] + rest)[i] {
      if i > 0 {
        assert t[1..][i - 1] == t[i];
      }
    }
  }

  /** The keys of a non-empty counter: its first key, then those of the rest. */
  lemma KeysCons<K>(t: seq<(K, nat)>)
    requires t != []
    ensures Keys(t) == [t[0].0] + Keys(t[1..])
    ensures forall x :: x in Keys(t) <==> x == t[0].0 || x in Keys(t[1..])
  {
    assert Keys(t) == [t[0].0] + Keys(t[1..]);
  }

  /** The scan `if (v > top) { top = v; best = key; }` over `entries`, starting
      from `best` and `top`: it ends on the largest value, held by the first
      entry that reaches it, and keeps the start when no entry beats `top`. */
  function FirstMax<K>(entries: seq<(K, int)>, best: K, top: int): (r: (K, int))
    ensures r.1 >= top
    ensures forall i :: 0 <= i < |entries| ==> entries[i].1 <= r.1
    ensures (forall i :: 0 <= i < |entries| ==> entries[i].1 <= top) ==> r == (best, top)
    ensures (exists i :: 0 <= i < |entries| && entries[i].1 > top) ==>
              exists k :: 0 <= k < |entries| && r == entries[k] &&
                forall i :: 0 <= i < k ==> entries[i].1 < r.1
  {
    if entries == [] then (best, top)
    else if entries[0].1 > top then FirstMax(entries[1..], entries[0].0, entries[0].1)
    else FirstMax(entries[1..], best, top)
  }
}
