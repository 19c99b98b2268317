/** Sequence vocabulary shared by the cleaning pipeline and the pagination loops:
    element-wise maps, order-keeping filters, the concatenation of a list of
    batches (pd.concat) and the subsequence order that says "same elements,
    same relative order, some left out". */
module Seqs {

  function Init<T>(s: seq<T>): seq<T>
    requires |s| > 0
  {
    s[..|s| - 1]
  }

  function Last<T>(s: seq<T>): T
    requires |s| > 0
  {
    s[|s| - 1]
  }

  /** Applies f to every element (a column projection or a re-indexing of a frame). */
  function Map<T, U>(s: seq<T>, f: T -> U): (r: seq<U>)
    ensures |r| == |s|
    ensures forall i :: 0 <= i < |s| ==> r[i] == f(s[i])
  {
    seq(|s|, i requires 0 <= i < |s| => f(s[i]))
  }

  /** Keeps the elements that satisfy p, in their original order (a boolean mask). */
  function Filter<T>(s: seq<T>, p: T -> bool): seq<T>
    decreases |s|
  {
    if s == [] then []
    else Filter(Init(s), p) + (if p(Last(s)) then [Last(s)] else [])
  }

  /** The number of elements that satisfy p, counted from the front. */
  function Count<T>(s: seq<T>, p: T -> bool): nat
    decreases |s|
  {
    if s == [] then 0 else (if p(s[0]) then 1 else 0) + Count(s[1..], p)
  }

  /** The first n elements, or all of them when there are fewer. */
  function Take<T>(s: seq<T>, n: nat): (r: seq<T>)
    ensures |r| == if n < |s| then n else |s|
    ensures r == s[..|r|]
  {
    if n < |s| then s[..n] else s
  }

  /** Concatenation of a list of batches, first batch first. */
  function Concat<T>(ss: seq<seq<T>>): seq<T>
    decreases |ss|
  {
    if ss == [] then [] else Concat(Init(ss)) + Last(ss)
  }

  predicate Distinct<T(==)>(s: seq<T>)
  {
    forall i, j :: 0 <= i < j < |s| ==> s[i] != s[j]
  }

  /** a is obtained from b by leaving elements out, keeping the order of the rest. */
  predicate IsSubsequence<T(==)>(a: seq<T>, b: seq<T>)
    decreases |b|
  {
    if b == [] then a == []
    else IsSubsequence(a, Init(b))
         || (a != [] && Last(a) == Last(b) && IsSubsequence(Init(a), Init(b)))
  }

  lemma {:induction false} FilterSpec<T>(s: seq<T>, p: T -> bool)
    ensures forall x :: x in Filter(s, p) <==> x in s && p(x)
    ensures IsSubsequence(Filter(s, p), s)
    ensures |Filter(s, p)| <= |s|
    decreases |s|
  {
    if s != [] {
      FilterSpec(Init(s), p);
      assert s == Init(s) + [Last(s)];
      var r := Filter(s, p);
      if p(Last(s)) {
        assert Init(r) == Filter(Init(s), p) && Last(r) == Last(s);
      } else {
        assert r == Filter(Init(s), p);
      }
    }
  }

  lemma {:induction false} FilterAppend<T>(a: seq<T>, b: seq<T>, p: T -> bool)
    ensures Filter(a + b, p) == Filter(a, p) + Filter(b, p)
    decreases |b|
  {
    if b == [] {
      assert a + b == a;
    } else {
      assert Init(a + b) == a + Init(b);
      assert Last(a + b) == Last(b);
      FilterAppend(a, Init(b), p);
    }
  }

  /** A filter keeps one element per element that satisfies p. */
  lemma {:induction false} FilterCount<T>(s: seq<T>, p: T -> bool)
    ensures |Filter(s, p)| == Count(s, p)
    decreases |s|
  {
    if s != [] {
      assert s == [s[0]] + s[1..];
      FilterAppend([s[0]], s[1..], p);
      assert Init([s[0]]) == [];
      FilterCount(s[1..], p);
    }
  }

  lemma {:induction false} FilterKeepsAll<T>(s: seq<T>, p: T -> bool)
    requires forall i :: 0 <= i < |s| ==> p(s[i])
    ensures Filter(s, p) == s
    decreases |s|
  {
    if s != [] {
      var t := Init(s);
      forall i | 0 <= i < |t|
        ensures p(t[i])
      {
        assert t[i] == s[i];
      }
      FilterKeepsAll(t, p);
      assert p(s[|s| - 1]);
      assert Filter(s, p) == t + [Last(s)];
      assert t + [Last(s)] == s;
    }
  }

  lemma {:induction false} FilterDropsAll<T>(s: seq<T>, p: T -> bool)
    requires forall i :: 0 <= i < |s| ==> !p(s[i])
    ensures Filter(s, p) == []
    decreases |s|
  {
    if s != [] {
      var t := Init(s);
      forall i | 0 <= i < |t|
        ensures !p(t[i])
      {
        assert t[i] == s[i];
      }
      FilterDropsAll(t, p);
      assert !p(s[|s| - 1]);
    }
  }

  /** Filtering by p and then by a stronger q is filtering by q. */
  lemma {:induction false} FilterFilter<T>(s: seq<T>, p: T -> bool, q: T -> bool)
    requires forall x :: q(x) ==> p(x)
    ensures Filter(Filter(s, p), q) == Filter(s, q)
    decreases |s|
  {
    if s != [] {
      FilterFilter(Init(s), p, q);
      var tail := if p(Last(s)) then [Last(s)] else [];
      FilterAppend(Filter(Init(s), p), tail, q);
    }
  }

  lemma {:induction false} ConcatAppend<T>(ss: seq<seq<T>>, tt: seq<seq<T>>)
    ensures Concat(ss + tt) == Concat(ss) + Concat(tt)
    decreases |tt|
  {
    if tt == [] {
      assert ss + tt == ss;
    } else {
      assert Init(ss + tt) == ss + Init(tt);
      assert Last(ss + tt) == Last(tt);
      ConcatAppend(ss, Init(tt));
    }
  }

  lemma ConcatSingle<T>(s: seq<T>)
    ensures Concat([s]) == s
  {
    assert Init([s]) == [];
  }

  lemma {:induction false} ConcatMembers<T>(ss: seq<seq<T>>)
    ensures forall x :: x in Concat(ss) ==> exists i :: 0 <= i < |ss| && x in ss[i]
    decreases |ss|
  {
    if ss != [] {
      ConcatMembers(Init(ss));
      forall x | x in Concat(ss)
        ensures exists i :: 0 <= i < |ss| && x in ss[i]
      {
        if x in Concat(Init(ss)) {
          var i :| 0 <= i < |Init(ss)| && x in Init(ss)[i];
          assert x in ss[i];
        } else {
          assert x in ss[|ss| - 1];
        }
      }
    }
  }

  lemma {:induction false} EmptyIsSubsequence<T>(s: seq<T>)
    ensures IsSubsequence([], s)
    decreases |s|
  {
    if s != [] {
      EmptyIsSubsequence(Init(s));
    }
  }

  lemma {:induction false} SubsequenceMembers<T>(a: seq<T>, b: seq<T>)
    requires IsSubsequence(a, b)
    ensures forall x :: x in a ==> x in b
    decreases |b|
  {
    if b != [] {
      if IsSubsequence(a, Init(b)) {
        SubsequenceMembers(a, Init(b));
      } else {
        SubsequenceMembers(Init(a), Init(b));
        assert a == Init(a) + [Last(a)];
        assert b == Init(b) + [Last(b)];
      }
    }
  }

  lemma {:induction false} SubsequenceTrans<T>(a: seq<T>, b: seq<T>, c: seq<T>)
    requires IsSubsequence(a, b) && IsSubsequence(b, c)
    ensures IsSubsequence(a, c)
    decreases |c|
  {
    if c == [] {
    } else if IsSubsequence(b, Init(c)) {
      SubsequenceTrans(a, b, Init(c));
    } else if b == [] {
      EmptyIsSubsequence(c);
    } else if IsSubsequence(a, Init(b)) {
      SubsequenceTrans(a, Init(b), Init(c));
    } else {
      SubsequenceTrans(Init(a), Init(b), Init(c));
    }
  }

  lemma {:induction false} SubsequenceMap<T, U>(a: seq<T>, b: seq<T>, f: T -> U)
    requires IsSubsequence(a, b)
    ensures IsSubsequence(Map(a, f), Map(b, f))
    decreases |b|
  {
    if b != [] {
      assert Init(Map(b, f)) == Map(Init(b), f);
      if IsSubsequence(a, Init(b)) {
        SubsequenceMap(a, Init(b), f);
      } else {
        assert Init(Map(a, f)) == Map(Init(a), f);
        SubsequenceMap(Init(a), Init(b), f);
      }
    }
  }

  lemma {:induction false} SubsequenceDistinct<T>(a: seq<T>, b: seq<T>)
    requires IsSubsequence(a, b) && Distinct(b)
    ensures Distinct(a)
    decreases |b|
  {
    if b != [] {
      if IsSubsequence(a, Init(b)) {
        SubsequenceDistinct(a, Init(b));
      } else {
        SubsequenceDistinct(Init(a), Init(b));
        SubsequenceMembers(Init(a), Init(b));
        forall i | 0 <= i < |a| - 1
          ensures a[i] != Last(a)
        {
          assert a[i] in Init(a);
        }
      }
    }
  }

  lemma MapAppend<T, U>(a: seq<T>, b: seq<T>, f: T -> U)
    ensures Map(a + b, f) == Map(a, f) + Map(b, f)
  {
    assert Map(a + b, f) == Map(a, f) + Map(b, f);
  }

  lemma DistinctAppend<T>(a: seq<T>, b: seq<T>)
    ensures Distinct(a + b) <==> Distinct(a) && Distinct(b) && forall i, j :: 0 <= i < |a| && 0 <= j < |b| ==> a[i] != b[j]
  {
    if Distinct(a + b) {
      forall i, j | 0 <= i < j < |a|
        ensures a[i] != a[j]
      {
        assert (a + b)[i] == a[i] && (a + b)[j] == a[j];
      }
      forall i, j | 0 <= i < |a| && 0 <= j < |b|
        ensures a[i] != b[j]
      {
        assert (a + b)[i] == a[i] && (a + b)[|a| + j] == b[j];
      }
      forall i, j | 0 <= i < j < |b|
        ensures b[i] != b[j]
      {
        assert (a + b)[|a| + i] == b[i] && (a + b)[|a| + j] == b[j];
      }
    } else if Distinct(a) && Distinct(b) {
      var i, j :| 0 <= i < j < |a + b| && (a + b)[i] == (a + b)[j];
      assert i < |a| <= j;
      assert a[i] == b[j - |a|];
    }
  }
}
