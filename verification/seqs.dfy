/** Sequence facts behind `Array.prototype.filter`: the result keeps a
    subsequence of the input, exactly the elements that pass, each as
    often as it occurred. */
module Seqs {

  /** `a` can be obtained from `b` by deleting elements, keeping order. */
  ghost predicate Subsequence<T>(a: seq<T>, b: seq<T>)
    decreases |b|
  {
    if |a| == 0 then true
    else if |b| == 0 then false
    else (a[0] == b[0] && Subsequence(a[1..], b[1..])) || Subsequence(a, b[1..])
  }

  lemma {:induction false} SubsequenceRefl<T>(a: seq<T>)
    ensures Subsequence(a, a)
    decreases |a|
  {
    if |a| > 0 {
      SubsequenceRefl(a[1..]);
    }
  }

  /** `s.filter(keep)`. */
  function Filter<T>(s: seq<T>, keep: T -> bool): (r: seq<T>)
    ensures |r| <= |s|
    ensures Subsequence(r, s)
    ensures forall i :: 0 <= i < |r| ==> keep(r[i])
    ensures forall i :: 0 <= i < |r| ==> r[i] in s
    ensures forall i :: 0 <= i < |s| && keep(s[i]) ==> multiset(r)[s[i]] == multiset(s)[s[i]]
    decreases |s|
  {
    if |s| == 0 then []
    else
      var rest := Filter(s[1..], keep);
      var r := if keep(s[0]) then [s[0]] + rest else rest;
      FilterStepOrder(s, keep, rest, r);
      FilterStepCounts(s, keep, rest, r);
      r
  }

  /** One step of the filter keeps order and passing elements only. */
  lemma FilterStepOrder<T>(s: seq<T>, keep: T -> bool, rest: seq<T>, r: seq<T>)
    requires |s| > 0
    requires |rest| <= |s| - 1 && Subsequence(rest, s[1..])
    requires forall i :: 0 <= i < |rest| ==> keep(rest[i]) && rest[i] in s[1..]
    requires r == if keep(s[0]) then [s[0]] + rest else rest
    ensures |r| <= |s| && Subsequence(r, s)
    ensures forall i :: 0 <= i < |r| ==> keep(r[i]) && r[i] in s
  {
    if keep(s[0]) {
      assert r[0] == s[0] && r[1..] == rest;
    }
  }

  /** One step of the filter keeps every passing element as often as it
      occurs. */
  lemma FilterStepCounts<T>(s: seq<T>, keep: T -> bool, rest: seq<T>, r: seq<T>)
    requires |s| > 0
    requires forall i :: 0 <= i < |rest| ==> rest[i] in s[1..]
    requires forall i :: 0 <= i < |s[1..]| && keep(s[1..][i]) ==>
      multiset(rest)[s[1..][i]] == multiset(s[1..])[s[1..][i]]
    requires r == if keep(s[0]) then [s[0]] + rest else rest
    ensures forall i :: 0 <= i < |s| && keep(s[i]) ==> multiset(r)[s[i]] == multiset(s)[s[i]]
  {
    var t := s[1..];
    assert s == [s[0]] + t;
    forall i | 0 <= i < |s| && keep(s[i])
      ensures multiset(r)[s[i]] == multiset(s)[s[i]]
    {
      var x := s[i];
      assert multiset(s)[x] == multiset([s[0]])[x] + multiset(t)[x];
      assert multiset(rest)[x] == multiset(t)[x] by {
        if x in t {
          var j :| 0 <= j < |t| && t[j] == x;
        } else {
          assert x !in rest;
        }
      }
      if keep(s[0]) {
        assert multiset(r)[x] == multiset([s[0]])[x] + multiset(rest)[x];
      } else {
        assert x != s[0];
      }
    }
  }

  /** One step of `Filter`: the first element, if it passes, then the
      filtered rest. */
  lemma FilterStep<T>(s: seq<T>, keep: T -> bool)
    requires |s| > 0
    ensures Filter(s, keep) == (if keep(s[0]) then [s[0]] else []) + Filter(s[1..], keep)
  {
  }

  /** A filter that every element passes is the identity. */
  lemma {:induction false} FilterKeepsAll<T>(s: seq<T>, keep: T -> bool)
    requires forall i :: 0 <= i < |s| ==> keep(s[i])
    ensures Filter(s, keep) == s
    decreases |s|
  {
    if |s| > 0 {
      FilterKeepsAll(s[1..], keep);
    }
  }

  /** Filtering distributes over appending one element. */
  lemma {:induction false} FilterSnoc<T>(s: seq<T>, x: T, keep: T -> bool)
    ensures Filter(s + [x], keep) == Filter(s, keep) + (if keep(x) then [x] else [])
    decreases |s|
  {
    if |s| == 0 {
      assert s + [x] == [x];
      assert [x][1..] == [];
    } else {
      var t := s + [x];
      assert t[0] == s[0];
      assert t[1..] == s[1..] + [x];
      FilterSnoc(s[1..], x, keep);
      if keep(s[0]) {
        calc {
          Filter(t, keep);
          [s[0]] + Filter(s[1..] + [x], keep);
          [s[0]] + (Filter(s[1..], keep) + (if keep(x) then [x] else []));
          ([s[0]] + Filter(s[1..], keep)) + (if keep(x) then [x] else []);
        }
      } else {
        assert Filter(t, keep) == Filter(s[1..] + [x], keep);
      }
    }
  }

  /** The concatenation of a sequence of sequences, in order. */
  function Flatten<T>(ss: seq<seq<T>>): seq<T>
    decreases |ss|
  {
    if |ss| == 0 then [] else ss[0] + Flatten(ss[1..])
  }

  lemma FlattenStep<T>(ss: seq<seq<T>>)
    requires |ss| > 0
    ensures Flatten(ss) == ss[0] + Flatten(ss[1..])
  {
  }

  /** An element occurs in a concatenation exactly when it occurs in one
      of the parts. */
  lemma {:induction false} FlattenMember<T>(ss: seq<seq<T>>, x: T)
    ensures x in Flatten(ss) <==> exists k :: 0 <= k < |ss| && x in ss[k]
    decreases |ss|
  {
    if |ss| > 0 {
      FlattenMember(ss[1..], x);
      if x in Flatten(ss[1..]) {
        var k :| 0 <= k < |ss[1..]| && x in ss[1..][k];
        assert x in ss[k + 1];
      }
      if exists k :: 1 <= k < |ss| && x in ss[k] {
        var k :| 1 <= k < |ss| && x in ss[k];
        assert x in ss[1..][k - 1];
      }
    }
  }
}
