/** Order-preserving filtering of sequences, the list comprehensions
    `[a for a in xs if p(a)]` the repository is built from, and a stable
    sort under a total preorder, Python's `sorted`, and the all-or-nothing
    conversion of every element `[f(x) for x in xs]` where one failure
    fails the whole. */
module Seqs {
  import opened Wrappers

  /** `f` applied to every element, or `None` as soon as one gives `None`. */
  function MapAll<A, B>(xs: seq<A>, f: A -> Option<B>): (r: Option<seq<B>>)
    ensures r.Some? <==> forall i :: 0 <= i < |xs| ==> f(xs[i]).Some?
    ensures r.Some? ==> |r.value| == |xs| && forall i :: 0 <= i < |xs| ==> f(xs[i]) == Some(r.value[i])
  {
    if |xs| == 0 then Some([])
    else
      var head := f(xs[0]);
      var rest := MapAll(xs[1..], f);
      assert forall i :: 1 <= i < |xs| ==> xs[i] == xs[1..][i - 1];
      if head.None? || rest.None? then None
      else Some([head.value] + rest.value)
  }

  /** The elements of `s` that satisfy `p`, in their order in `s`. */
  function Filter<T>(s: seq<T>, p: T -> bool): (r: seq<T>)
    ensures |r| <= |s|
    ensures forall i :: 0 <= i < |r| ==> r[i] in s && p(r[i])
    ensures forall i :: 0 <= i < |s| && p(s[i]) ==> s[i] in r
  {
    if |s| == 0 then []
    else
      var rest := Filter(s[1..], p);
      if p(s[0]) then [s[0]] + rest else rest
  }

  /** Filtering distributes over concatenation: the kept elements of a
      prefix come before those of the suffix, so the original order survives. */
  lemma {:induction false} FilterAppend<T>(s: seq<T>, t: seq<T>, p: T -> bool)
    ensures Filter(s + t, p) == Filter(s, p) + Filter(t, p)
  {
    if |s| == 0 {
      assert s + t == t;
    } else {
      assert (s + t)[1..] == s[1..] + t;
      FilterAppend(s[1..], t, p);
    }
  }

  /** A filter that every element passes keeps the whole sequence. */
  lemma {:induction false} FilterKeepsAll<T>(s: seq<T>, p: T -> bool)
    requires forall i :: 0 <= i < |s| ==> p(s[i])
    ensures Filter(s, p) == s
  {
    if |s| > 0 {
      FilterKeepsAll(s[1..], p);
    }
  }

  /** A predicate no element satisfies keeps nothing. */
  lemma {:induction false} FilterKeepsNone<T>(s: seq<T>, p: T -> bool)
    requires forall i :: 0 <= i < |s| ==> !p(s[i])
    ensures Filter(s, p) == []
  {
    if |s| > 0 {
      FilterKeepsNone(s[1..], p);
    }
  }

  /** A relation that holds from every element to every later one still
      holds between the elements a filter keeps: a filter only drops. */
  lemma {:induction false} FilterKeepsPairs<T>(s: seq<T>, p: T -> bool, rel: (T, T) -> bool)
    requires forall i, j :: 0 <= i < j < |s| ==> rel(s[i], s[j])
    ensures forall i, j :: 0 <= i < j < |Filter(s, p)| ==> rel(Filter(s, p)[i], Filter(s, p)[j])
  {
    if |s| > 0 {
      var tail := s[1..];
      assert forall i :: 0 <= i < |tail| ==> tail[i] == s[i + 1];
      FilterKeepsPairs(tail, p, rel);
      var rest := Filter(tail, p);
      var r := Filter(s, p);
      if p(s[0]) {
        assert r == [s[0]] + rest;
        forall i, j | 0 <= i < j < |r| ensures rel(r[i], r[j]) {
          assert r[j] == rest[j - 1];
          if i == 0 {
            var k :| 0 <= k < |tail| && tail[k] == rest[j - 1];
            assert rel(s[0], s[k + 1]);
          } else {
            assert r[i] == rest[i - 1];
          }
        }
      }
    }
  }

  /** A filter keeps the whole length exactly when every element passes. */
  lemma {:induction false} FilterKeepsLength<T>(s: seq<T>, p: T -> bool)
    ensures |Filter(s, p)| == |s| <==> forall i :: 0 <= i < |s| ==> p(s[i])
  {
    if |s| > 0 {
      FilterKeepsLength(s[1..], p);
      if forall i :: 0 <= i < |s[1..]| ==> p(s[1..][i]) {
        assert p(s[0]) ==> forall i :: 0 <= i < |s| ==> p(s[i]) by {
          if p(s[0]) {
            forall i | 0 <= i < |s| ensures p(s[i]) {
              if i > 0 { assert s[i] == s[1..][i - 1]; }
            }
          }
        }
      } else {
        var i :| 0 <= i < |s[1..]| && !p(s[1..][i]);
        assert s[i + 1] == s[1..][i];
      }
    }
  }

  /** Filtering keeps each element as often as it occurs, or drops it entirely. */
  lemma {:induction false} FilterMultiplicity<T>(s: seq<T>, p: T -> bool, x: T)
    ensures multiset(Filter(s, p))[x] == if p(x) then multiset(s)[x] else 0
  {
    if |s| > 0 {
      FilterMultiplicity(s[1..], p, x);
      assert s == [s[0]] + s[1..];
    }
  }

  // ---- stable sorting ------------------------------------------------------

  /** `le` is a total preorder: any two elements compare, and it is transitive. */
  ghost predicate TotalPreorder<T(!new)>(le: (T, T) -> bool) {
    && (forall a, b :: le(a, b) || le(b, a))
    && (forall a, b, c :: le(a, b) && le(b, c) ==> le(a, c))
  }

  predicate SortedBy<T>(le: (T, T) -> bool, s: seq<T>) {
    forall i, j :: 0 <= i < j < |s| ==> le(s[i], s[j])
  }

  /** `x` placed in front of the first element it may precede. */
  function Insert<T>(le: (T, T) -> bool, x: T, s: seq<T>): (r: seq<T>)
    ensures multiset(r) == multiset(s) + multiset{x}
    ensures |r| == |s| + 1
  {
    if |s| == 0 || le(x, s[0]) then [x] + s
    else
      assert s == [s[0]] + s[1..];
      [s[0]] + Insert(le, x, s[1..])
  }

  /** Inserting into a sorted sequence keeps it sorted. */
  lemma {:induction false} InsertSorted<T(!new)>(le: (T, T) -> bool, x: T, s: seq<T>)
    requires TotalPreorder(le)
    requires SortedBy(le, s)
    ensures SortedBy(le, Insert(le, x, s))
  {
    if |s| > 0 && !le(x, s[0]) {
      var rest := Insert(le, x, s[1..]);
      InsertSorted(le, x, s[1..]);
      assert s == [s[0]] + s[1..];
      forall j | 0 <= j < |rest|
        ensures le(s[0], rest[j])
      {
        assert rest[j] in multiset(s[1..]) + multiset{x};
        if rest[j] != x {
          assert rest[j] in s[1..];
        }
      }
    }
  }

  /** Python's `sorted`: an insertion sort, stable because each element is
      inserted in front of the later elements it ties with. */
  function Sort<T(!new)>(le: (T, T) -> bool, s: seq<T>): (r: seq<T>)
    requires TotalPreorder(le)
    ensures SortedBy(le, r)
    ensures multiset(r) == multiset(s)
    ensures |r| == |s|
  {
    if |s| == 0 then []
    else
      assert s == [s[0]] + s[1..];
      var rest := Sort(le, s[1..]);
      InsertSorted(le, s[0], rest);
      Insert(le, s[0], rest)
  }

  /** The elements of `s` that tie with `z` under `le`, in their order in `s`. */
  function Ties<T>(le: (T, T) -> bool, z: T, s: seq<T>): seq<T> {
    Filter(s, (y: T) => le(z, y) && le(y, z))
  }

  /** Inserting `x` puts it in front of all elements of `s` that tie with it. */
  lemma {:induction false} InsertTies<T(!new)>(le: (T, T) -> bool, z: T, x: T, s: seq<T>)
    requires TotalPreorder(le)
    ensures Ties(le, z, Insert(le, x, s)) == (if le(z, x) && le(x, z) then [x] else []) + Ties(le, z, s)
  {
    if |s| == 0 || le(x, s[0]) {
      assert ([x] + s)[1..] == s;
    } else {
      var rest := Insert(le, x, s[1..]);
      assert ([s[0]] + rest)[1..] == rest;
      InsertTies(le, z, x, s[1..]);
    }
  }

  /** The sort is stable: elements that tie keep their original relative order. */
  lemma {:induction false} SortIsStable<T(!new)>(le: (T, T) -> bool, z: T, s: seq<T>)
    requires TotalPreorder(le)
    ensures Ties(le, z, Sort(le, s)) == Ties(le, z, s)
  {
    if |s| > 0 {
      SortIsStable(le, z, s[1..]);
      InsertTies(le, z, s[0], Sort(le, s[1..]));
    }
  }
}
