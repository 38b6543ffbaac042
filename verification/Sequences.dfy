/** Sequence operations shared by the components: the stable sort they rely on, specified as
    insertion sort over a strict order `precedes`, and filters, prefixes and reversal. */
module Sequences {

  ghost predicate StrictWeakOrder<T(!new)>(precedes: (T, T) -> bool) {
    && (forall a, b :: precedes(a, b) ==> !precedes(b, a))
    && (forall a, b, c :: precedes(a, c) ==> precedes(a, b) || precedes(b, c))
  }

  ghost predicate Sorted<T>(s: seq<T>, precedes: (T, T) -> bool) {
    forall i, j :: 0 <= i < j < |s| ==> !precedes(s[j], s[i])
  }

  ghost predicate Distinct<T>(s: seq<T>) {
    forall i, j :: 0 <= i < j < |s| ==> s[i] != s[j]
  }

  /** Puts x in front of the first element that does not strictly precede it. */
  function Insert<T>(x: T, s: seq<T>, precedes: (T, T) -> bool): seq<T> {
    if s != [] && precedes(s[0], x) then [s[0]] + Insert(x, s[1..], precedes) else [x] + s
  }

  function Sort<T>(s: seq<T>, precedes: (T, T) -> bool): seq<T> {
    if s == [] then [] else Insert(s[0], Sort(s[1..], precedes), precedes)
  }

  lemma {:induction false} InsertElements<T>(x: T, s: seq<T>, precedes: (T, T) -> bool)
    ensures multiset(Insert(x, s, precedes)) == multiset(s) + multiset{x}
    ensures |Insert(x, s, precedes)| == |s| + 1
  {
    if s != [] && precedes(s[0], x) {
      InsertElements(x, s[1..], precedes);
      assert s == [s[0]] + s[1..];
    }
  }

  lemma {:induction false} SortPermutes<T>(s: seq<T>, precedes: (T, T) -> bool)
    ensures multiset(Sort(s, precedes)) == multiset(s)
    ensures |Sort(s, precedes)| == |s|
  {
    if s != [] {
      SortPermutes(s[1..], precedes);
      InsertElements(s[0], Sort(s[1..], precedes), precedes);
      assert s == [s[0]] + s[1..];
    }
  }

  lemma SortMembers<T>(s: seq<T>, precedes: (T, T) -> bool)
    ensures forall x :: x in Sort(s, precedes) <==> x in s
  {
    SortPermutes(s, precedes);
    assert forall x :: x in s <==> x in multiset(s);
    assert forall x :: x in Sort(s, precedes) <==> x in multiset(Sort(s, precedes));
  }

  lemma InsertMembers<T>(x: T, s: seq<T>, precedes: (T, T) -> bool)
    ensures forall y :: y in Insert(x, s, precedes) <==> y == x || y in s
  {
    InsertElements(x, s, precedes);
    var t := Insert(x, s, precedes);
    assert forall y :: y in t <==> y in multiset(t);
    assert forall y :: y in s <==> y in multiset(s);
  }

  lemma {:induction false} InsertSorted<T(!new)>(x: T, s: seq<T>, precedes: (T, T) -> bool)
    requires StrictWeakOrder(precedes) && Sorted(s, precedes)
    ensures Sorted(Insert(x, s, precedes), precedes)
  {
    if s != [] && precedes(s[0], x) {
      InsertSorted(x, s[1..], precedes);
      InsertMembers(x, s[1..], precedes);
      var rest := Insert(x, s[1..], precedes);
      forall k | 0 <= k < |rest| ensures !precedes(rest[k], s[0]) {
        assert rest[k] in rest;
        if rest[k] != x { var m :| 1 <= m < |s| && s[m] == rest[k]; }
      }
    } else if s != [] {
      forall k | 0 <= k < |s| ensures !precedes(s[k], x) {
        assert k > 0 ==> !precedes(s[k], s[0]);
      }
    }
  }

  lemma {:induction false} SortSorted<T(!new)>(s: seq<T>, precedes: (T, T) -> bool)
    requires StrictWeakOrder(precedes)
    ensures Sorted(Sort(s, precedes), precedes)
  {
    if s != [] {
      SortSorted(s[1..], precedes);
      InsertSorted(s[0], Sort(s[1..], precedes), precedes);
    }
  }

  /** An already sorted list is left exactly as it was. */
  lemma {:induction false} SortKeepsSorted<T>(s: seq<T>, precedes: (T, T) -> bool)
    requires Sorted(s, precedes)
    ensures Sort(s, precedes) == s
  {
    if s != [] {
      SortKeepsSorted(s[1..], precedes);
      assert |s| > 1 ==> !precedes(s[1], s[0]);
      assert s == [s[0]] + s[1..];
    }
  }

  lemma {:induction false} DistinctMultiplicity<T>(s: seq<T>, x: T)
    requires Distinct(s)
    ensures multiset(s)[x] <= 1
  {
    if s != [] {
      DistinctMultiplicity(s[1..], x);
      assert s == [s[0]] + s[1..];
      assert s[0] !in s[1..];
    }
  }

  lemma DistinctPermutation<T>(s: seq<T>, t: seq<T>)
    requires multiset(s) == multiset(t) && Distinct(s)
    ensures Distinct(t)
  {
    forall i, j | 0 <= i < j < |t| ensures t[i] != t[j] {
      DistinctMultiplicity(s, t[i]);
      if t[i] == t[j] { MultisetOfTwo(t, i, j); }
    }
  }

  lemma MultisetOfTwo<T>(t: seq<T>, i: nat, j: nat)
    requires i < j < |t| && t[i] == t[j]
    ensures multiset(t)[t[i]] >= 2
  {
    assert t == t[..i] + [t[i]] + t[i + 1..j] + [t[j]] + t[j + 1..];
  }

  function Filter<T>(s: seq<T>, keep: T -> bool): seq<T> {
    if s == [] then [] else (if keep(s[0]) then [s[0]] else []) + Filter(s[1..], keep)
  }

  lemma {:induction false} InsertFilter<T(!new)>(x: T, s: seq<T>, precedes: (T, T) -> bool, keep: T -> bool)
    requires forall a, b :: keep(a) && keep(b) ==> !precedes(a, b)
    ensures Filter(Insert(x, s, precedes), keep) == Filter([x] + s, keep)
  {
    if s != [] && precedes(s[0], x) {
      InsertFilter(x, s[1..], precedes, keep);
      assert ([x] + s)[1..] == s && ([x] + s[1..])[1..] == s[1..];
      assert ([s[0]] + Insert(x, s[1..], precedes))[1..] == Insert(x, s[1..], precedes);
    }
  }

  /** Stability: elements that do not precede one another keep their input order. */
  lemma {:induction false} SortStable<T(!new)>(s: seq<T>, precedes: (T, T) -> bool, keep: T -> bool)
    requires forall a, b :: keep(a) && keep(b) ==> !precedes(a, b)
    ensures Filter(Sort(s, precedes), keep) == Filter(s, keep)
  {
    if s != [] {
      SortStable(s[1..], precedes, keep);
      var rest := Sort(s[1..], precedes);
      InsertFilter(s[0], rest, precedes, keep);
      assert ([s[0]] + rest)[1..] == rest;
    }
  }

  // ----- the order a stable sort produces

  /** Every occurrence of a comes before every occurrence of b. */
  ghost predicate Earlier<T>(s: seq<T>, a: T, b: T) {
    forall i, j :: 0 <= i < |s| && 0 <= j < |s| && s[i] == a && s[j] == b ==> i < j
  }

  lemma EarlierTail<T>(s: seq<T>, a: T, b: T)
    requires s != [] && Earlier(s, a, b)
    ensures Earlier(s[1..], a, b)
  {
    var rest := s[1..];
    forall i, j | 0 <= i < |rest| && 0 <= j < |rest| && rest[i] == a && rest[j] == b ensures i < j {
      assert s[i + 1] == a && s[j + 1] == b;
    }
  }

  lemma EarlierFirst<T>(x: T, s: seq<T>, a: T, b: T)
    requires x != b && Earlier(s, a, b)
    ensures Earlier([x] + s, a, b)
  {
    var whole := [x] + s;
    forall i, j | 0 <= i < |whole| && 0 <= j < |whole| && whole[i] == a && whole[j] == b ensures i < j {
      if i > 0 { assert s[i - 1] == a && s[j - 1] == b; }
    }
  }

  lemma EarlierHead<T>(s: seq<T>, a: T)
    requires s != [] && Earlier(s, a, s[0])
    ensures a !in s
  {
    forall i | 0 <= i < |s| ensures s[i] != a {
      assert s[0] == s[0];
    }
  }

  lemma EarlierAbsent<T>(s: seq<T>, a: T, b: T)
    requires a !in s
    ensures Earlier(s, a, b)
  {}

  lemma {:induction false} InsertBefore<T>(x: T, s: seq<T>, precedes: (T, T) -> bool, b: T)
    requires x !in s && x != b && !precedes(b, x)
    ensures Earlier(Insert(x, s, precedes), x, b)
  {
    if s != [] && precedes(s[0], x) {
      InsertBefore(x, s[1..], precedes, b);
      EarlierFirst(s[0], Insert(x, s[1..], precedes), x, b);
    } else {
      EarlierAbsent(s, x, b);
      EarlierFirst(x, s, x, b);
    }
  }

  lemma {:induction false} InsertKeepsEarlier<T>(x: T, s: seq<T>, precedes: (T, T) -> bool, a: T, b: T)
    requires x != a && x != b && Earlier(s, a, b)
    ensures Earlier(Insert(x, s, precedes), a, b)
  {
    if s != [] && precedes(s[0], x) {
      EarlierTail(s, a, b);
      InsertKeepsEarlier(x, s[1..], precedes, a, b);
      var rest := Insert(x, s[1..], precedes);
      if s[0] == b {
        EarlierHead(s, a);
        InsertMembers(x, s[1..], precedes);
        EarlierAbsent([s[0]] + rest, a, b);
      } else {
        EarlierFirst(s[0], rest, a, b);
      }
    } else {
      EarlierFirst(x, s, a, b);
    }
  }

  lemma {:induction false} SortKeepsEarlier<T>(s: seq<T>, precedes: (T, T) -> bool, a: T, b: T)
    requires Distinct(s) && a != b && Earlier(s, a, b) && !precedes(b, a)
    ensures Earlier(Sort(s, precedes), a, b)
  {
    if s != [] {
      var x, rest := s[0], Sort(s[1..], precedes);
      SortMembers(s[1..], precedes);
      assert x !in s[1..];
      EarlierTail(s, a, b);
      SortKeepsEarlier(s[1..], precedes, a, b);
      if x == a {
        InsertBefore(x, rest, precedes, b);
      } else if x == b {
        EarlierHead(s, a);
        InsertMembers(x, rest, precedes);
        EarlierAbsent(Insert(x, rest, precedes), a, b);
      } else {
        InsertKeepsEarlier(x, rest, precedes, a, b);
      }
    }
  }

  lemma EarlierEither<T>(s: seq<T>, a: T, b: T)
    requires Distinct(s) && a != b && a in s && b in s
    ensures Earlier(s, a, b) <==> !Earlier(s, b, a)
  {
    var i :| 0 <= i < |s| && s[i] == a;
    var j :| 0 <= j < |s| && s[j] == b;
  }

  /** Where the sort puts a before b: when it precedes b, or they tie and a came first. */
  lemma SortOrder<T(!new)>(s: seq<T>, precedes: (T, T) -> bool, a: T, b: T)
    requires StrictWeakOrder(precedes) && Distinct(s) && a != b && a in s && b in s
    ensures Earlier(Sort(s, precedes), a, b) <==> precedes(a, b) || (!precedes(b, a) && Earlier(s, a, b))
  {
    SortPermutes(s, precedes);
    DistinctPermutation(s, Sort(s, precedes));
    SortMembers(s, precedes);
    SortSorted(s, precedes);
    EarlierEither(s, a, b);
    EarlierEither(Sort(s, precedes), a, b);
    if !precedes(b, a) && Earlier(s, a, b) { SortKeepsEarlier(s, precedes, a, b); }
    if !precedes(a, b) && Earlier(s, b, a) { SortKeepsEarlier(s, precedes, b, a); }
  }

  /** A cut through a sorted list leaves nothing behind it that precedes what is in front. */
  lemma SortedCut<T>(s: seq<T>, k: nat, precedes: (T, T) -> bool)
    requires Sorted(s, precedes) && k <= |s|
    ensures Sorted(s[..k], precedes) && multiset(s[..k]) + multiset(s[k..]) == multiset(s)
    ensures forall a, b :: a in s[..k] && b in s[k..] ==> !precedes(b, a)
  {
    assert s == s[..k] + s[k..];
    forall a, b | a in s[..k] && b in s[k..] ensures !precedes(b, a) {
      var i :| 0 <= i < k && s[i] == a;
      var j :| k <= j < |s| && s[j] == b;
    }
  }

  // ----- duplicate-free lists

  /** The elements of s, each once. */
  function Unique<T(==)>(s: seq<T>): seq<T> {
    if s == [] then []
    else
      var rest := Unique(s[1..]);
      if s[0] in rest then rest else [s[0]] + rest
  }

  lemma {:induction false} UniqueElements<T>(s: seq<T>)
    ensures Distinct(Unique(s)) && forall x :: x in Unique(s) <==> x in s
  {
    if s != [] {
      UniqueElements(s[1..]);
      assert s == [s[0]] + s[1..];
    }
  }

  lemma {:induction false} DistinctSize<T>(s: seq<T>)
    requires Distinct(s)
    ensures |set x | x in s| == |s|
  {
    if s != [] {
      DistinctSize(s[1..]);
      assert s == [s[0]] + s[1..] && s[0] !in s[1..];
      assert (set x | x in s) == {s[0]} + (set x | x in s[1..]);
    }
  }

  // ----- filters, prefixes and reversal

  lemma {:induction false} FilterSubsequence<T(!new)>(s: seq<T>, keep: T -> bool)
    ensures |Filter(s, keep)| <= |s|
    ensures forall x :: x in Filter(s, keep) <==> x in s && keep(x)
    ensures Distinct(s) ==> Distinct(Filter(s, keep))
  {
    if s != [] {
      FilterSubsequence(s[1..], keep);
      assert s == [s[0]] + s[1..];
    }
  }

  lemma FilterFirst<T>(x: T, s: seq<T>, keep: T -> bool)
    ensures Filter([x] + s, keep) == if keep(x) then [x] + Filter(s, keep) else Filter(s, keep)
  {
    assert ([x] + s)[1..] == s;
  }

  lemma {:induction false} FilterAppend<T>(s: seq<T>, t: seq<T>, keep: T -> bool)
    ensures Filter(s + t, keep) == Filter(s, keep) + Filter(t, keep)
  {
    if s == [] {
      assert s + t == t;
    } else {
      var x, rest := s[0], s[1..];
      FilterAppend(rest, t, keep);
      assert s + t == [x] + (rest + t) && s == [x] + rest;
      FilterFirst(x, rest + t, keep);
      FilterFirst(x, rest, keep);
      AppendAssociates([x], Filter(rest, keep), Filter(t, keep));
    }
  }

  lemma AppendAssociates<T>(s: seq<T>, t: seq<T>, u: seq<T>)
    ensures (s + t) + u == s + (t + u)
  {}

  lemma {:induction false} FilterCommutes<T>(s: seq<T>, p: T -> bool, q: T -> bool)
    ensures Filter(Filter(s, p), q) == Filter(Filter(s, q), p)
  {
    if s != [] {
      var x, rest := s[0], s[1..];
      FilterCommutes(rest, p, q);
      assert s == [x] + rest;
      FilterFirst(x, rest, p);
      FilterFirst(x, rest, q);
      FilterFirst(x, Filter(rest, p), q);
      FilterFirst(x, Filter(rest, q), p);
    }
  }

  /** A relation between every earlier and later element. */
  ghost predicate Pairwise<T>(s: seq<T>, related: (T, T) -> bool) {
    forall i, j :: 0 <= i < j < |s| ==> related(s[i], s[j])
  }

  lemma {:induction false} FilterPairwise<T(!new)>(s: seq<T>, keep: T -> bool, related: (T, T) -> bool)
    requires Pairwise(s, related)
    ensures Pairwise(Filter(s, keep), related)
  {
    if s != [] {
      var x, rest := s[0], s[1..];
      FilterPairwise(rest, keep, related);
      FilterSubsequence(rest, keep);
      var kept := Filter(rest, keep);
      forall j | 0 <= j < |kept| ensures related(x, kept[j]) {
        assert kept[j] in kept;
        var i :| 0 <= i < |rest| && rest[i] == kept[j];
        assert related(s[0], s[i + 1]);
      }
      PairwiseFirst(x, kept, related);
      assert Filter(s, keep) == if keep(x) then [x] + kept else kept;
    }
  }

  lemma PairwiseFirst<T>(x: T, s: seq<T>, related: (T, T) -> bool)
    requires Pairwise(s, related) && forall j :: 0 <= j < |s| ==> related(x, s[j])
    ensures Pairwise([x] + s, related)
  {}

  function Prefix<T>(s: seq<T>, k: nat): seq<T> {
    if |s| <= k then s else s[..k]
  }

  function Reverse<T>(s: seq<T>): seq<T> {
    if s == [] then [] else Reverse(s[1..]) + [s[0]]
  }

  lemma {:induction false} ReverseAt<T>(s: seq<T>)
    ensures |Reverse(s)| == |s|
    ensures forall i :: 0 <= i < |s| ==> Reverse(s)[i] == s[|s| - 1 - i]
  {
    if s != [] { ReverseAt(s[1..]); }
  }

  lemma {:induction false} InsertLast<T>(x: T, s: seq<T>, precedes: (T, T) -> bool)
    requires forall i :: 0 <= i < |s| ==> precedes(s[i], x)
    ensures Insert(x, s, precedes) == s + [x]
  {
    if s != [] { InsertLast(x, s[1..], precedes); }
  }

  lemma {:induction false} SortReverses<T>(s: seq<T>, precedes: (T, T) -> bool)
    requires forall i, j :: 0 <= i < j < |s| ==> precedes(s[j], s[i])
    ensures Sort(s, precedes) == Reverse(s)
  {
    if s != [] {
      SortReverses(s[1..], precedes);
      ReverseAt(s[1..]);
      InsertLast(s[0], Reverse(s[1..]), precedes);
    }
  }
}
