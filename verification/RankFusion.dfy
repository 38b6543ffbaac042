/** Reciprocal rank fusion of a text search and a vector search. */
module RankFusion {
  import opened Wrappers
  import opened Sequences
  import Nonlinear

  const DEFAULT_K := 60

  datatype Weights = Weights(fts: real, vec: real)

  /** Few words favour the text search, many the vector search. */
  function AdaptiveWeights(words: nat): Weights {
    if words <= 3 then Weights(1.5, 0.7)
    else if words >= 12 then Weights(0.7, 1.5)
    else Weights(1.0, 1.0)
  }

  /** Weights given by the caller count only when both are given. */
  function ChosenWeights(words: nat, fts: Option<real>, vec: Option<real>): Weights {
    if fts.None? || vec.None? then AdaptiveWeights(words) else Weights(fts.value, vec.value)
  }

  /** A place in a result list, counted from 1. */
  type Place = n: nat | n >= 1 witness 1

  datatype Hit = Hit(id: int, score: real, ftsRank: Option<Place>, vecRank: Option<Place>)

  // ----- the simple definition

  /** Where an id stands in a result list; the last place counts should it occur again. */
  function Rank(list: seq<int>, id: int): (r: Option<Place>)
    ensures r.Some? ==> r.value <= |list|
  {
    if list == [] then None
    else if list[|list| - 1] == id then Some(|list|)
    else Rank(list[..|list| - 1], id)
  }

  function Term(weight: real, k: nat, rank: Option<Place>): real {
    match rank
    case None => 0.0
    case Some(r) => weight / (k + r) as real
  }

  function Score(fts: seq<int>, vec: seq<int>, k: nat, w: Weights, id: int): real {
    Term(w.fts, k, Rank(fts, id)) + Term(w.vec, k, Rank(vec, id))
  }

  function Fuse(fts: seq<int>, vec: seq<int>, k: nat, w: Weights, id: int): Hit {
    Hit(id, Score(fts, vec, k, w, id), Rank(fts, id), Rank(vec, id))
  }

  /** The ids of a list in the order in which they first occur. */
  function FirstSeen(list: seq<int>): seq<int> {
    if list == [] then []
    else
      var seen := FirstSeen(list[..|list| - 1]);
      if list[|list| - 1] in seen then seen else seen + [list[|list| - 1]]
  }

  function FuseAll(fts: seq<int>, vec: seq<int>, k: nat, w: Weights, ids: seq<int>): (hits: seq<Hit>)
    ensures |hits| == |ids|
    ensures forall i :: 0 <= i < |ids| ==> hits[i] == Fuse(fts, vec, k, w, ids[i])
  {
    if ids == [] then []
    else FuseAll(fts, vec, k, w, ids[..|ids| - 1]) + [Fuse(fts, vec, k, w, ids[|ids| - 1])]
  }

  function Fused(fts: seq<int>, vec: seq<int>, k: nat, w: Weights): seq<Hit> {
    FuseAll(fts, vec, k, w, FirstSeen(fts + vec))
  }

  predicate Outscores(a: Hit, b: Hit) { a.score > b.score }

  /** Every id found by either search, best score first. */
  function Ranking(fts: seq<int>, vec: seq<int>, k: nat, w: Weights): seq<Hit> {
    Sort(Fused(fts, vec, k, w), Outscores)
  }

  /** What a search returns: the best hits under the weights that apply. */
  function Result(words: nat, fts: seq<int>, vec: seq<int>, k: nat, limit: nat,
      ftsWeight: Option<real>, vecWeight: Option<real>): seq<Hit>
  {
    Prefix(Ranking(fts, vec, k, ChosenWeights(words, ftsWeight, vecWeight)), limit)
  }

  // ----- the search

  datatype Ranks = Ranks(fts: Option<Place>, vec: Option<Place>)

  ghost function RanksIn(fts: seq<int>, vec: seq<int>): int -> Ranks {
    id => Ranks(Rank(fts, id), Rank(vec, id))
  }

  /** The dictionary holds the ids of the list `order`, each with its ranks. */
  ghost predicate Records(scores: map<int, Ranks>, order: seq<int>, ranks: int -> Ranks) {
    && (forall id :: id in scores <==> id in order)
    && (forall id :: id in scores ==> scores[id] == ranks(id))
  }

  /** The dictionary after the ids of `all` were entered, and the order of its keys. */
  ghost predicate Entered(scores: map<int, Ranks>, order: seq<int>, all: seq<int>, ranks: int -> Ranks) {
    order == FirstSeen(all) && Records(scores, order, ranks)
  }

  lemma EnteredGrows(scores: map<int, Ranks>, order: seq<int>, all: seq<int>, ranks: int -> Ranks, id: int,
      scores': map<int, Ranks>, order': seq<int>, all': seq<int>, ranks': int -> Ranks)
    requires Entered(scores, order, all, ranks) && all' == all + [id]
    requires forall x :: x != id ==> ranks'(x) == ranks(x)
    requires order' == if id in order then order else order + [id]
    requires scores' == scores[id := ranks'(id)]
    ensures Entered(scores', order', all', ranks')
  {
    FirstSeenLast(all, id);
    forall x ensures x in order' <==> x in order || x == id {}
  }

  lemma TextRankGrows(fts: seq<int>, id: int)
    ensures RanksIn(fts + [id], [])(id) == Ranks(Some(|fts| + 1), None)
    ensures forall x :: x != id ==> RanksIn(fts + [id], [])(x) == RanksIn(fts, [])(x)
  {
    forall x { RankLast(fts, id, x); }
  }

  lemma VectorRankGrows(fts: seq<int>, vec: seq<int>, id: int)
    ensures RanksIn(fts, vec + [id])(id) == Ranks(Rank(fts, id), Some(|vec| + 1))
    ensures forall x :: x != id ==> RanksIn(fts, vec + [id])(x) == RanksIn(fts, vec)(x)
  {
    forall x { RankLast(vec, id, x); }
  }

  lemma FirstSeenLast(list: seq<int>, id: int)
    ensures FirstSeen(list + [id]) == if id in FirstSeen(list) then FirstSeen(list) else FirstSeen(list) + [id]
  {
    assert (list + [id])[..|list|] == list;
  }

  lemma RankLast(list: seq<int>, id: int, x: int)
    ensures Rank(list + [id], x) == if x == id then Some(|list| + 1) else Rank(list, x)
  {
    assert (list + [id])[..|list|] == list;
  }

  lemma RankAbsent(list: seq<int>, id: int)
    ensures Rank(list, id).Some? <==> id in list
  {
    if list != [] { RankAbsent(list[..|list| - 1], id); }
  }

  method EnterFts(hits: seq<int>) returns (scores: map<int, Ranks>, order: seq<int>)
    ensures Entered(scores, order, hits, RanksIn(hits, []))
  {
    scores, order := map[], [];
    for i := 0 to |hits|
      invariant Entered(scores, order, hits[..i], RanksIn(hits[..i], []))
    {
      var id := hits[i];
      ghost var before, previous := scores, order;
      if id !in scores {
        scores := scores[id := Ranks(None, None)];
        order := order + [id];
      }
      scores := scores[id := scores[id].(fts := Some(i + 1))];
      assert hits[..i + 1] == hits[..i] + [id];
      TextRankGrows(hits[..i], id);
      assert scores == before[id := Ranks(Some(i + 1), None)];
      EnteredGrows(before, previous, hits[..i], RanksIn(hits[..i], []), id,
                   scores, order, hits[..i + 1], RanksIn(hits[..i + 1], []));
    }
    assert hits[..|hits|] == hits;
  }

  lemma TextRankKept(scores: map<int, Ranks>, order: seq<int>, fts: seq<int>, vec: seq<int>, id: int)
    requires Entered(scores, order, fts + vec, RanksIn(fts, vec))
    ensures (if id in scores then scores[id].fts else None) == Rank(fts, id)
    ensures id in scores <==> id in order
  {
    FirstSeenElements(fts + vec);
    RankAbsent(fts, id);
  }

  method EnterVec(scores0: map<int, Ranks>, order0: seq<int>, ghost fts: seq<int>, hits: seq<int>)
      returns (scores: map<int, Ranks>, order: seq<int>)
    requires Entered(scores0, order0, fts, RanksIn(fts, []))
    ensures Entered(scores, order, fts + hits, RanksIn(fts, hits))
  {
    scores, order := scores0, order0;
    assert fts + hits[..0] == fts;
    for i := 0 to |hits|
      invariant Entered(scores, order, fts + hits[..i], RanksIn(fts, hits[..i]))
    {
      var id := hits[i];
      ghost var before, previous := scores, order;
      if id !in scores {
        scores := scores[id := Ranks(None, None)];
        order := order + [id];
      }
      scores := scores[id := scores[id].(vec := Some(i + 1))];
      assert hits[..i + 1] == hits[..i] + [id];
      TextRankKept(before, previous, fts, hits[..i], id);
      VectorRankGrows(fts, hits[..i], id);
      assert fts + hits[..i + 1] == (fts + hits[..i]) + [id];
      EnteredGrows(before, previous, fts + hits[..i], RanksIn(fts, hits[..i]), id,
                   scores, order, fts + hits[..i + 1], RanksIn(fts, hits[..i + 1]));
    }
    assert hits[..|hits|] == hits;
  }

  lemma EnteredAt(scores: map<int, Ranks>, order: seq<int>, fts: seq<int>, vec: seq<int>, i: nat)
    requires Entered(scores, order, fts + vec, RanksIn(fts, vec)) && i < |order|
    ensures order[i] in scores && scores[order[i]] == Ranks(Rank(fts, order[i]), Rank(vec, order[i]))
  {
    var id := order[i];
    assert id in order;
    assert scores[id] == RanksIn(fts, vec)(id);
  }

  lemma FuseAllLast(fts: seq<int>, vec: seq<int>, k: nat, w: Weights, ids: seq<int>, id: int)
    ensures FuseAll(fts, vec, k, w, ids + [id]) == FuseAll(fts, vec, k, w, ids) + [Fuse(fts, vec, k, w, id)]
  {
    assert (ids + [id])[..|ids|] == ids;
  }

  method AddTerms(s: Ranks, k: nat, w: Weights) returns (score: real)
    ensures score == Term(w.fts, k, s.fts) + Term(w.vec, k, s.vec)
  {
    score := 0.0;
    if s.fts.Some? { score := score + w.fts / (k + s.fts.value) as real; }
    if s.vec.Some? { score := score + w.vec / (k + s.vec.value) as real; }
  }

  method ScoreEntries(scores: map<int, Ranks>, order: seq<int>, ghost fts: seq<int>, ghost vec: seq<int>,
      k: nat, w: Weights) returns (fused: seq<Hit>)
    requires forall i :: 0 <= i < |order| ==>
      order[i] in scores && scores[order[i]] == Ranks(Rank(fts, order[i]), Rank(vec, order[i]))
    ensures fused == FuseAll(fts, vec, k, w, order)
  {
    fused := [];
    for i := 0 to |order|
      invariant fused == FuseAll(fts, vec, k, w, order[..i])
    {
      var s := scores[order[i]];
      var score := AddTerms(s, k, w);
      fused := fused + [Hit(order[i], score, s.fts, s.vec)];
      FuseAllLast(fts, vec, k, w, order[..i], order[i]);
      assert order[..i + 1] == order[..i] + [order[i]];
    }
    assert order[..|order|] == order;
  }

  /** fts and vec are the ids the two searches found, best first. */
  method Search(words: nat, fts: seq<int>, vec: seq<int>, k: nat, limit: nat,
      ftsWeight: Option<real>, vecWeight: Option<real>) returns (top: seq<Hit>)
    ensures top == Result(words, fts, vec, k, limit, ftsWeight, vecWeight)
  {
    var w := ChosenWeights(words, ftsWeight, vecWeight);
    var scores, order := EnterFts(fts);
    scores, order := EnterVec(scores, order, fts, vec);
    forall i | 0 <= i < |order|
      ensures order[i] in scores && scores[order[i]] == Ranks(Rank(fts, order[i]), Rank(vec, order[i]))
    {
      EnteredAt(scores, order, fts, vec, i);
    }
    var fused := ScoreEntries(scores, order, fts, vec, k, w);
    top := Prefix(Sort(fused, Outscores), limit);
  }

  // ----- what the ranking holds

  lemma {:induction false} FirstSeenElements(list: seq<int>)
    ensures Distinct(FirstSeen(list)) && forall id :: id in FirstSeen(list) <==> id in list
  {
    if list != [] {
      FirstSeenElements(list[..|list| - 1]);
      assert list == list[..|list| - 1] + [list[|list| - 1]];
    }
  }

  lemma FirstSeenSize(list: seq<int>)
    ensures |FirstSeen(list)| == |set id | id in list|
  {
    FirstSeenElements(list);
    DistinctSize(FirstSeen(list));
    var ids := FirstSeen(list);
    var found, seen := set id | id in list, set id | id in ids;
    assert forall id :: id in found <==> id in seen;
    assert found == seen;
  }

  lemma {:induction false} FirstSeenDistinct(list: seq<int>)
    requires Distinct(list)
    ensures FirstSeen(list) == list
  {
    if list != [] {
      FirstSeenDistinct(list[..|list| - 1]);
      assert list == list[..|list| - 1] + [list[|list| - 1]];
    }
  }

  ghost predicate Found(fts: seq<int>, vec: seq<int>, id: int) { id in fts || id in vec }

  lemma OutscoresOrders()
    ensures StrictWeakOrder(Outscores)
  {}

  lemma FuseAllElements(fts: seq<int>, vec: seq<int>, k: nat, w: Weights, ids: seq<int>, h: Hit)
    ensures h in FuseAll(fts, vec, k, w, ids) <==> h.id in ids && h == Fuse(fts, vec, k, w, h.id)
  {
    var hits := FuseAll(fts, vec, k, w, ids);
    if h in hits {
      var i :| 0 <= i < |hits| && hits[i] == h;
      assert ids[i] in ids;
    }
    if h.id in ids {
      var i :| 0 <= i < |ids| && ids[i] == h.id;
      assert hits[i] in hits;
    }
  }

  lemma FusedElements(fts: seq<int>, vec: seq<int>, k: nat, w: Weights)
    ensures Distinct(Fused(fts, vec, k, w))
    ensures forall h :: h in Fused(fts, vec, k, w) <==> Found(fts, vec, h.id) && h == Fuse(fts, vec, k, w, h.id)
  {
    FirstSeenElements(fts + vec);
    forall h ensures h in Fused(fts, vec, k, w) <==> Found(fts, vec, h.id) && h == Fuse(fts, vec, k, w, h.id) {
      FuseAllElements(fts, vec, k, w, FirstSeen(fts + vec), h);
    }
  }

  /** The hits found, as a set; one for every id. */
  lemma RankingElements(fts: seq<int>, vec: seq<int>, k: nat, w: Weights)
    ensures Distinct(Ranking(fts, vec, k, w)) && Sorted(Ranking(fts, vec, k, w), Outscores)
    ensures |Ranking(fts, vec, k, w)| == |set id | id in fts + vec|
    ensures forall h :: h in Ranking(fts, vec, k, w) <==> Found(fts, vec, h.id) && h == Fuse(fts, vec, k, w, h.id)
  {
    var fused := Fused(fts, vec, k, w);
    FirstSeenSize(fts + vec);
    FusedElements(fts, vec, k, w);
    OutscoresOrders();
    SortPermutes(fused, Outscores);
    DistinctPermutation(fused, Sort(fused, Outscores));
    SortMembers(fused, Outscores);
    SortSorted(fused, Outscores);
  }

  lemma PrefixOfRanking(ranking: seq<Hit>, limit: nat)
    requires Distinct(ranking) && Sorted(ranking, Outscores)
    ensures var top := Prefix(ranking, limit);
      && Distinct(top) && Sorted(top, Outscores)
      && (forall h :: h in top ==> h in ranking)
      && (forall h, g :: h in top && g in ranking && g !in top ==> h.score >= g.score)
  {
    var cut := if |ranking| <= limit then |ranking| else limit;
    SortedCut(ranking, cut, Outscores);
    assert ranking == ranking[..cut] + ranking[cut..];
    forall h, g | h in ranking[..cut] && g in ranking && g !in ranking[..cut]
      ensures h.score >= g.score
    {
      assert g in ranking[cut..];
      assert !Outscores(g, h);
    }
  }

  /** The result: min(limit, number of ids found) different ids, each with its score and ranks,
      best first; nothing left out scores higher than something listed. */
  lemma SearchIsTop(fts: seq<int>, vec: seq<int>, k: nat, w: Weights, limit: nat)
    ensures var top := Prefix(Ranking(fts, vec, k, w), limit);
      var found := |set id | id in fts + vec|;
      && |top| == (if limit < found then limit else found)
      && Distinct(top) && Sorted(top, Outscores)
      && (forall h: Hit :: h in top ==> Found(fts, vec, h.id) && h == Fuse(fts, vec, k, w, h.id))
      && (forall h, g: Hit :: h in top && Found(fts, vec, g.id) && g == Fuse(fts, vec, k, w, g.id) && g !in top ==>
            h.score >= g.score)
  {
    RankingElements(fts, vec, k, w);
    PrefixOfRanking(Ranking(fts, vec, k, w), limit);
  }

  /** Which of two found ids is ranked first: the better score, or on a tie the one seen first. */
  lemma RankingOrder(fts: seq<int>, vec: seq<int>, k: nat, w: Weights, a: int, b: int)
    requires Found(fts, vec, a) && Found(fts, vec, b) && a != b
    ensures Earlier(Ranking(fts, vec, k, w), Fuse(fts, vec, k, w, a), Fuse(fts, vec, k, w, b)) <==>
      || Score(fts, vec, k, w, a) > Score(fts, vec, k, w, b)
      || (Score(fts, vec, k, w, a) == Score(fts, vec, k, w, b) && Earlier(FirstSeen(fts + vec), a, b))
  {
    var fused, x, y := Fused(fts, vec, k, w), Fuse(fts, vec, k, w, a), Fuse(fts, vec, k, w, b);
    FusedElements(fts, vec, k, w);
    OutscoresOrders();
    SortOrder(fused, Outscores, x, y);
    var ids := FirstSeen(fts + vec);
    assert Earlier(fused, x, y) <==> Earlier(ids, a, b) by {
      assert forall i :: 0 <= i < |ids| ==> (ids[i] == a <==> fused[i] == x) && (ids[i] == b <==> fused[i] == y);
    }
  }

  lemma EarlierInPrefix<T>(s: seq<T>, k: nat, a: T, b: T)
    requires Earlier(s, a, b) && a in s && b in Prefix(s, k)
    ensures a in Prefix(s, k)
  {
    var i :| 0 <= i < |s| && s[i] == a;
    var j :| 0 <= j < |Prefix(s, k)| && Prefix(s, k)[j] == b;
    assert s[j] == b;
    assert Prefix(s, k)[i] == a;
  }

  // ----- dominance

  /** a stands no worse than b in a list: b is missing, or a is there and not behind it. */
  predicate NoWorse(a: Option<Place>, b: Option<Place>) {
    b.None? || (a.Some? && a.value <= b.value)
  }

  lemma QuotientShrinks(w: real, d: int, e: int)
    requires w > 0.0 && 0 < d
    ensures d == e ==> w / d as real == w / e as real
    ensures d < e ==> w / d as real > w / e as real
    ensures e >= d ==> w / e as real > 0.0
  {
    if d < e { QuotientStrict(w, d as real, e as real); }
    if e >= d { QuotientPositive(w, e as real); }
  }

  lemma QuotientPositive(w: real, d: real)
    requires w > 0.0 && d > 0.0
    ensures w / d > 0.0
  {
    Nonlinear.QuotientOrder(0.0, w, d);
    Nonlinear.QuotientOfWhole(d);
  }

  lemma QuotientStrict(w: real, d: real, e: real)
    requires w > 0.0 && 0.0 < d < e
    ensures w / d > w / e
  {
    var p, q := w / d, w / e;
    Nonlinear.QuotientIs(p, w, d);
    Nonlinear.QuotientIs(q, w, e);
    QuotientPositive(w, e);
    Nonlinear.ScaleStrict(q, d, e);
    if p <= q { Nonlinear.ScaleMonotone(d, p, q); }
  }

  lemma TermOrder(w: real, k: nat, a: Option<Place>, b: Option<Place>)
    requires w > 0.0 && NoWorse(a, b)
    ensures Term(w, k, a) >= Term(w, k, b)
    ensures !NoWorse(b, a) ==> Term(w, k, a) > Term(w, k, b)
  {
    if a.Some? {
      var d := k + a.value;
      match b
      case None => QuotientShrinks(w, d, d);
      case Some(r) => QuotientShrinks(w, d, k + r);
    }
  }

  /** An id ranked no worse in both lists and better in one always comes first, and is never
      cut off while the other stays. */
  lemma Dominance(fts: seq<int>, vec: seq<int>, k: nat, w: Weights, a: int, b: int, limit: nat)
    requires w.fts > 0.0 && w.vec > 0.0 && Found(fts, vec, b)
    requires NoWorse(Rank(fts, a), Rank(fts, b)) && NoWorse(Rank(vec, a), Rank(vec, b))
    requires !NoWorse(Rank(fts, b), Rank(fts, a)) || !NoWorse(Rank(vec, b), Rank(vec, a))
    ensures Found(fts, vec, a) && Score(fts, vec, k, w, a) > Score(fts, vec, k, w, b)
    ensures Earlier(Ranking(fts, vec, k, w), Fuse(fts, vec, k, w, a), Fuse(fts, vec, k, w, b))
    ensures Fuse(fts, vec, k, w, b) in Prefix(Ranking(fts, vec, k, w), limit) ==>
      Fuse(fts, vec, k, w, a) in Prefix(Ranking(fts, vec, k, w), limit)
  {
    TermOrder(w.fts, k, Rank(fts, a), Rank(fts, b));
    TermOrder(w.vec, k, Rank(vec, a), Rank(vec, b));
    RankAbsent(fts, a);
    RankAbsent(vec, a);
    RankAbsent(fts, b);
    RankAbsent(vec, b);
    RankingOrder(fts, vec, k, w, a, b);
    RankingMembers(fts, vec, k, w, a);
    if Fuse(fts, vec, k, w, b) in Prefix(Ranking(fts, vec, k, w), limit) {
      EarlierInPrefix(Ranking(fts, vec, k, w), limit, Fuse(fts, vec, k, w, a), Fuse(fts, vec, k, w, b));
    }
  }

  lemma RankingMembers(fts: seq<int>, vec: seq<int>, k: nat, w: Weights, id: int)
    ensures Fuse(fts, vec, k, w, id) in Ranking(fts, vec, k, w) <==> Found(fts, vec, id)
  {
    FusedElements(fts, vec, k, w);
    SortMembers(Fused(fts, vec, k, w), Outscores);
  }

  // ----- one search finds nothing

  lemma {:induction false} RankAt(list: seq<int>, i: nat)
    requires Distinct(list) && i < |list|
    ensures Rank(list, list[i]) == Some(i + 1)
  {
    if i < |list| - 1 { RankAt(list[..|list| - 1], i); }
  }

  lemma PlacesOrder(w: real, k: nat, i: Place, j: Place)
    requires w > 0.0 && i <= j
    ensures Term(w, k, Some(i)) >= Term(w, k, Some(j))
  {
    TermOrder(w, k, Some(i), Some(j));
  }

  lemma AloneOrder(fts: seq<int>, vec: seq<int>, k: nat, w: Weights, list: seq<int>, i: nat, j: nat)
    requires Distinct(list) && w.fts > 0.0 && w.vec > 0.0 && i < j < |list|
    requires (fts == list && vec == []) || (fts == [] && vec == list)
    ensures Score(fts, vec, k, w, list[i]) >= Score(fts, vec, k, w, list[j])
  {
    RankAt(list, i);
    RankAt(list, j);
    PlacesOrder(w.fts, k, i + 1, j + 1);
    PlacesOrder(w.vec, k, i + 1, j + 1);
  }

  lemma AloneSorted(fts: seq<int>, vec: seq<int>, k: nat, w: Weights, list: seq<int>)
    requires Distinct(list) && w.fts > 0.0 && w.vec > 0.0
    requires (fts == list && vec == []) || (fts == [] && vec == list)
    ensures Sorted(FuseAll(fts, vec, k, w, list), Outscores)
  {
    forall i, j | 0 <= i < j < |list|
      ensures Fuse(fts, vec, k, w, list[i]).score >= Fuse(fts, vec, k, w, list[j]).score
    {
      AloneOrder(fts, vec, k, w, list, i, j);
    }
  }

  /** When one search finds nothing, the order of the other is kept. */
  lemma OneListKeepsOrder(fts: seq<int>, vec: seq<int>, k: nat, w: Weights, list: seq<int>)
    requires Distinct(list) && w.fts > 0.0 && w.vec > 0.0
    requires (fts == list && vec == []) || (fts == [] && vec == list)
    ensures Ranking(fts, vec, k, w) == FuseAll(fts, vec, k, w, list)
  {
    assert fts + vec == list;
    FirstSeenDistinct(list);
    AloneSorted(fts, vec, k, w, list);
    SortKeepsSorted(Fused(fts, vec, k, w), Outscores);
  }

  // ----- found by both searches, or by one

  ghost predicate InBoth(fts: seq<int>, vec: seq<int>, id: int) { id in fts && id in vec }

  /** Every id found by both searches comes before every id found by only one. */
  ghost predicate BothFirst(fts: seq<int>, vec: seq<int>, k: nat, w: Weights) {
    forall a, b :: InBoth(fts, vec, a) && Found(fts, vec, b) && !InBoth(fts, vec, b) ==>
      Earlier(Ranking(fts, vec, k, w), Fuse(fts, vec, k, w, a), Fuse(fts, vec, k, w, b))
  }

  ghost predicate Lists(fts: seq<int>, vec: seq<int>, n: nat) {
    Distinct(fts) && Distinct(vec) && |fts| <= n && |vec| <= n
  }

  /** The last place in both lists is worth more than the first place in one; a tie is enough
      when that one is the vector list, whose own ids are entered last. */
  predicate Separated(w: Weights, k: nat, n: nat) {
    && (w.fts + w.vec) * (k + 1) as real > w.fts * (k + n) as real
    && (w.fts + w.vec) * (k + 1) as real >= w.vec * (k + n) as real
  }

  lemma QuotientCross(x: real, d: real, y: real, e: real)
    requires d > 0.0 && e > 0.0
    ensures x / d > y / e <==> x * e > y * d
    ensures x / d == y / e <==> x * e == y * d
  {
    var p, q := x / d, y / e;
    Nonlinear.QuotientIs(p, x, d);
    Nonlinear.QuotientIs(q, y, e);
    CrossProducts(d, e, p, q);
  }

  lemma CrossProducts(d: real, e: real, p: real, q: real)
    requires d > 0.0 && e > 0.0
    ensures p > q <==> d * p * e > e * q * d
    ensures p == q <==> d * p * e == e * q * d
  {
    Nonlinear.ProductPositive(d, e, d * e);
    Nonlinear.ScaleCancel(d * e, p, q);
    Rearrange(d, e, p);
    Rearrange(e, d, q);
  }

  lemma Rearrange(x: real, y: real, z: real)
    ensures x * z * y == x * y * z
    ensures x * y == y * x
  {}

  lemma LastPlaces(w: Weights, d: real)
    requires d > 0.0
    ensures w.fts / d + w.vec / d == (w.fts + w.vec) / d
  {
    Nonlinear.QuotientIs(w.fts / d, w.fts, d);
    Nonlinear.QuotientIs(w.vec / d, w.vec, d);
    Nonlinear.Distribute(d, w.fts / d, w.vec / d);
    Nonlinear.QuotientIs(w.fts / d + w.vec / d, w.fts + w.vec, d);
  }

  /** The score of an id last in both lists. */
  function Lowest(w: Weights, k: nat, n: Place): real { Term(w.fts, k, Some(n)) + Term(w.vec, k, Some(n)) }

  lemma LowestAgainst(w: Weights, k: nat, n: Place, best: real)
    ensures Lowest(w, k, n) > Term(best, k, Some(1)) <==> (w.fts + w.vec) * (k + 1) as real > best * (k + n) as real
    ensures Lowest(w, k, n) == Term(best, k, Some(1)) <==> (w.fts + w.vec) * (k + 1) as real == best * (k + n) as real
  {
    LastPlaces(w, (k + n) as real);
    QuotientCross(w.fts + w.vec, (k + n) as real, best, (k + 1) as real);
  }

  lemma {:induction false} FirstSeenConcat(x: seq<int>, y: seq<int>, a: int, b: int)
    requires a in x && b !in x
    ensures Earlier(FirstSeen(x + y), a, b)
  {
    if y == [] {
      assert x + y == x;
      FirstSeenElements(x);
      EarlierUnlessSeen(FirstSeen(x), a, b);
    } else {
      var init, id := y[..|y| - 1], y[|y| - 1];
      FirstSeenConcat(x, init, a, b);
      assert x + y == (x + init) + [id];
      FirstSeenLast(x + init, id);
      FirstSeenElements(x + init);
    }
  }

  lemma EarlierUnlessSeen(s: seq<int>, a: int, b: int)
    requires b !in s
    ensures Earlier(s, a, b)
  {}

  lemma ScoreInBoth(fts: seq<int>, vec: seq<int>, k: nat, w: Weights, n: nat, a: int)
    requires w.fts > 0.0 && w.vec > 0.0 && Lists(fts, vec, n) && InBoth(fts, vec, a)
    ensures n > 0 && Score(fts, vec, k, w, a) >= Lowest(w, k, n)
  {
    RankAbsent(fts, a);
    RankAbsent(vec, a);
    PlacesOrder(w.fts, k, Rank(fts, a).value, n);
    PlacesOrder(w.vec, k, Rank(vec, a).value, n);
  }

  lemma ScoreInOne(fts: seq<int>, vec: seq<int>, k: nat, w: Weights, b: int)
    requires w.fts > 0.0 && w.vec > 0.0 && Found(fts, vec, b) && !InBoth(fts, vec, b)
    ensures Score(fts, vec, k, w, b) <= Term(if b in fts then w.fts else w.vec, k, Some(1))
  {
    RankAbsent(fts, b);
    RankAbsent(vec, b);
    if b in fts {
      PlacesOrder(w.fts, k, 1, Rank(fts, b).value);
    } else {
      PlacesOrder(w.vec, k, 1, Rank(vec, b).value);
    }
  }

  /** The last place in both lists against the first place in either. */
  ghost predicate LowestWins(w: Weights, k: nat, n: Place) {
    Lowest(w, k, n) > Term(w.fts, k, Some(1)) && Lowest(w, k, n) >= Term(w.vec, k, Some(1))
  }

  lemma SeparatedMeans(w: Weights, k: nat, n: Place)
    ensures Separated(w, k, n) <==> LowestWins(w, k, n)
  {
    LowestAgainst(w, k, n, w.fts);
    LowestAgainst(w, k, n, w.vec);
  }

  lemma SeparatedScores(fts: seq<int>, vec: seq<int>, k: nat, w: Weights, n: Place, a: int, b: int)
    requires w.fts > 0.0 && w.vec > 0.0 && LowestWins(w, k, n) && Lists(fts, vec, n)
    requires InBoth(fts, vec, a) && Found(fts, vec, b) && !InBoth(fts, vec, b)
    ensures Score(fts, vec, k, w, a) >= Score(fts, vec, k, w, b)
    ensures b in fts ==> Score(fts, vec, k, w, a) > Score(fts, vec, k, w, b)
  {
    ScoreInBoth(fts, vec, k, w, n, a);
    ScoreInOne(fts, vec, k, w, b);
  }

  lemma BothBeforeOne(fts: seq<int>, vec: seq<int>, k: nat, w: Weights, n: nat, a: int, b: int)
    requires w.fts > 0.0 && w.vec > 0.0 && Separated(w, k, n) && Lists(fts, vec, n)
    requires InBoth(fts, vec, a) && Found(fts, vec, b) && !InBoth(fts, vec, b)
    ensures Earlier(Ranking(fts, vec, k, w), Fuse(fts, vec, k, w, a), Fuse(fts, vec, k, w, b))
  {
    ScoreInBoth(fts, vec, k, w, n, a);
    SeparatedMeans(w, k, n);
    SeparatedScores(fts, vec, k, w, n, a, b);
    if b !in fts { FirstSeenConcat(fts, vec, a, b); }
    RankingOrder(fts, vec, k, w, a, b);
  }

  // ----- lists that break the separation

  function Count(from: int, n: nat): (s: seq<int>)
    ensures |s| == n && forall i :: 0 <= i < n ==> s[i] == from + i
  {
    seq(n, i => from + i)
  }

  /** Id n is last in both lists; id 1 leads the text list, id n + 1 the vector list. */
  function TextWitness(n: nat): seq<int> { Count(1, n) }

  function VectorWitness(n: nat): seq<int>
    requires n >= 1
  {
    Count(n + 1, n - 1) + [n]
  }

  lemma WitnessLists(n: nat)
    requires n >= 2
    ensures Lists(TextWitness(n), VectorWitness(n), n)
    ensures TextWitness(n)[0] == 1 && TextWitness(n)[n - 1] == n
    ensures VectorWitness(n)[0] == n + 1 && VectorWitness(n)[n - 1] == n
  {
    var front := Count(n + 1, n - 1);
    assert forall i :: 0 <= i < n - 1 ==> VectorWitness(n)[i] == front[i] == n + 1 + i;
  }

  lemma WitnessAbsent(n: nat)
    requires n >= 2
    ensures 1 !in VectorWitness(n) && n + 1 !in TextWitness(n)
  {
    var front := Count(n + 1, n - 1);
    assert forall i :: 0 <= i < n - 1 ==> VectorWitness(n)[i] == front[i] == n + 1 + i;
  }

  lemma WitnessRanks(n: nat)
    requires n >= 2
    ensures Rank(TextWitness(n), n) == Rank(VectorWitness(n), n) == Some(n)
    ensures Rank(TextWitness(n), 1) == Some(1) && Rank(VectorWitness(n), 1) == None
    ensures Rank(VectorWitness(n), n + 1) == Some(1) && Rank(TextWitness(n), n + 1) == None
  {
    var fts, vec := TextWitness(n), VectorWitness(n);
    WitnessLists(n);
    WitnessAbsent(n);
    RankAt(fts, 0);
    RankAt(fts, n - 1);
    RankAt(vec, 0);
    RankAt(vec, n - 1);
    RankAbsent(fts, n + 1);
    RankAbsent(vec, 1);
  }

  lemma WitnessFound(n: nat)
    requires n >= 2
    ensures InBoth(TextWitness(n), VectorWitness(n), n)
    ensures Found(TextWitness(n), VectorWitness(n), 1) && !InBoth(TextWitness(n), VectorWitness(n), 1)
    ensures Found(TextWitness(n), VectorWitness(n), n + 1) && !InBoth(TextWitness(n), VectorWitness(n), n + 1)
  {
    WitnessRanks(n);
    forall id | id in [1, n, n + 1]
      ensures Rank(TextWitness(n), id).Some? <==> id in TextWitness(n)
      ensures Rank(VectorWitness(n), id).Some? <==> id in VectorWitness(n)
    {
      RankAbsent(TextWitness(n), id);
      RankAbsent(VectorWitness(n), id);
    }
    assert 1 in [1, n, n + 1] && n in [1, n, n + 1] && n + 1 in [1, n, n + 1];
  }

  lemma {:induction false} FirstSeenFirst(list: seq<int>)
    requires list != []
    ensures FirstSeen(list) != [] && FirstSeen(list)[0] == list[0]
  {
    if |list| > 1 { FirstSeenFirst(list[..|list| - 1]); }
  }

  lemma WitnessScores(k: nat, w: Weights, n: nat)
    requires n >= 2
    ensures Score(TextWitness(n), VectorWitness(n), k, w, n) == Lowest(w, k, n)
    ensures Score(TextWitness(n), VectorWitness(n), k, w, 1) == Term(w.fts, k, Some(1))
    ensures Score(TextWitness(n), VectorWitness(n), k, w, n + 1) == Term(w.vec, k, Some(1))
  {
    WitnessRanks(n);
  }

  lemma LoserFirst(fts: seq<int>, vec: seq<int>, k: nat, w: Weights, a: int, b: int)
    requires a != b && Found(fts, vec, a) && Found(fts, vec, b)
    requires Score(fts, vec, k, w, b) >= Score(fts, vec, k, w, a)
    requires Score(fts, vec, k, w, b) == Score(fts, vec, k, w, a) ==> fts != [] && b == fts[0]
    ensures !Earlier(Ranking(fts, vec, k, w), Fuse(fts, vec, k, w, a), Fuse(fts, vec, k, w, b))
  {
    FirstSeenElements(fts + vec);
    EarlierEither(FirstSeen(fts + vec), a, b);
    if fts != [] { FirstSeenFirst(fts + vec); }
    RankingOrder(fts, vec, k, w, a, b);
  }

  lemma NotSeparated(k: nat, w: Weights, n: nat)
    requires w.fts > 0.0 && w.vec > 0.0 && n >= 2 && !LowestWins(w, k, n)
    ensures Lists(TextWitness(n), VectorWitness(n), n)
    ensures !BothFirst(TextWitness(n), VectorWitness(n), k, w)
  {
    var fts, vec := TextWitness(n), VectorWitness(n);
    WitnessLists(n);
    WitnessFound(n);
    WitnessScores(k, w, n);
    LoserFirst(fts, vec, k, w, n, if Lowest(w, k, n) <= Term(w.fts, k, Some(1)) then 1 else n + 1);
  }

  lemma FewAreSeparated(k: nat, w: Weights, n: nat)
    requires w.fts > 0.0 && w.vec > 0.0
    ensures n <= 1 ==> Separated(w, k, n)
  {
    if n > 1 { return; }
    Nonlinear.ScaleMonotone(w.fts, (k + n) as real, (k + 1) as real);
    Nonlinear.ScaleMonotone(w.vec, (k + n) as real, (k + 1) as real);
    Nonlinear.Distribute((k + 1) as real, w.fts, w.vec);
    Nonlinear.ProductPositive(w.fts, (k + 1) as real, w.fts * (k + 1) as real);
    Nonlinear.ProductPositive(w.vec, (k + 1) as real, w.vec * (k + 1) as real);
  }

  /** For which list lengths finding an id twice always beats finding it once. */
  lemma BothFirstExactly(k: nat, w: Weights, n: nat)
    requires w.fts > 0.0 && w.vec > 0.0
    ensures Separated(w, k, n) <==> forall fts, vec :: Lists(fts, vec, n) ==> BothFirst(fts, vec, k, w)
  {
    if Separated(w, k, n) {
      forall fts, vec, a, b | Lists(fts, vec, n) && InBoth(fts, vec, a) && Found(fts, vec, b) && !InBoth(fts, vec, b)
        ensures Earlier(Ranking(fts, vec, k, w), Fuse(fts, vec, k, w, a), Fuse(fts, vec, k, w, b))
      {
        BothBeforeOne(fts, vec, k, w, n, a, b);
      }
    } else {
      FewAreSeparated(k, w, n);
      SeparatedMeans(w, k, n);
      NotSeparated(k, w, n);
    }
  }

  /** How far back a text hit may stand and still beat a vector hit, neither found twice. */
  lemma TextBeatsVector(w: Weights, k: nat, r: Place, s: Place)
    ensures Term(w.fts, k, Some(r)) > Term(w.vec, k, Some(s)) <==> w.fts * (k + s) as real > w.vec * (k + r) as real
    ensures Term(w.fts, k, Some(r)) == Term(w.vec, k, Some(s)) <==> w.fts * (k + s) as real == w.vec * (k + r) as real
  {
    QuotientCross(w.fts, (k + r) as real, w.vec, (k + s) as real);
  }

  /** Short queries favour the text search, long ones the vector search, by a factor of more
      than two; in between equal places are worth the same. */
  lemma WeightsFavour(words: nat, k: nat, r: Place, s: Place)
    ensures var w := AdaptiveWeights(words);
      && (words <= 3 && k + r <= 2 * (k + s) ==> Term(w.fts, k, Some(r)) > Term(w.vec, k, Some(s)))
      && (words >= 12 && k + s <= 2 * (k + r) ==> Term(w.vec, k, Some(s)) > Term(w.fts, k, Some(r)))
      && (3 < words < 12 ==> (Term(w.fts, k, Some(r)) > Term(w.vec, k, Some(s)) <==> r < s))
  {
    var w := AdaptiveWeights(words);
    TextBeatsVector(w, k, r, s);
  }

  /** With the constants of the search, which asks both engines for three times the limit: neutral
      weights separate up to a limit of 20, the keyword and prose weights only up to 9. */
  lemma SeparatingLimits(limit: nat, words: nat)
    ensures Separated(AdaptiveWeights(words), DEFAULT_K, 3 * limit) <==>
      limit <= if 3 < words < 12 then 20 else 9
  {}

  // ----- what a caller of the search sees

  /** The last place of an id in a list. */
  ghost predicate LastPlace(list: seq<int>, id: int, rank: Option<Place>) {
    match rank
    case None => id !in list
    case Some(n) => n <= |list| && list[n - 1] == id && forall i :: n <= i < |list| ==> list[i] != id
  }

  lemma {:induction false} RankIsLastPlace(list: seq<int>, id: int)
    ensures LastPlace(list, id, Rank(list, id))
  {
    if list != [] && list[|list| - 1] != id {
      var init := list[..|list| - 1];
      RankIsLastPlace(init, id);
      assert list == init + [list[|list| - 1]];
    }
  }

  /** The weights a search works with: the caller's if both are given, else by query length. */
  ghost predicate InForce(words: nat, ftsWeight: Option<real>, vecWeight: Option<real>, w: Weights) {
    if ftsWeight.Some? && vecWeight.Some? then w == Weights(ftsWeight.value, vecWeight.value)
    else w == Weights(if words <= 3 then 1.5 else if words >= 12 then 0.7 else 1.0,
                      if words <= 3 then 0.7 else if words >= 12 then 1.5 else 1.0)
  }

  /** Every hit carries its last place in each list, and the sum of the weights over k plus place. */
  lemma ResultScores(words: nat, fts: seq<int>, vec: seq<int>, k: nat, limit: nat,
      ftsWeight: Option<real>, vecWeight: Option<real>, w: Weights, h: Hit)
    requires InForce(words, ftsWeight, vecWeight, w)
    requires h in Result(words, fts, vec, k, limit, ftsWeight, vecWeight)
    ensures LastPlace(fts, h.id, h.ftsRank) && LastPlace(vec, h.id, h.vecRank) && (h.id in fts || h.id in vec)
    ensures h.score == (if h.ftsRank.Some? then w.fts / (k + h.ftsRank.value) as real else 0.0)
                     + (if h.vecRank.Some? then w.vec / (k + h.vecRank.value) as real else 0.0)
  {
    SearchIsTop(fts, vec, k, w, limit);
    RankIsLastPlace(fts, h.id);
    RankIsLastPlace(vec, h.id);
  }

  /** Wherever b is listed, a is listed before it. */
  ghost predicate Leads(top: seq<Hit>, a: int, b: int) {
    forall j :: 0 <= j < |top| && top[j].id == b ==> exists i :: 0 <= i < j && top[i].id == a
  }

  lemma EarlierLeads(fts: seq<int>, vec: seq<int>, k: nat, w: Weights, limit: nat, a: int, b: int)
    requires Found(fts, vec, a)
    requires Earlier(Ranking(fts, vec, k, w), Fuse(fts, vec, k, w, a), Fuse(fts, vec, k, w, b))
    ensures Leads(Prefix(Ranking(fts, vec, k, w), limit), a, b)
  {
    var ranking := Ranking(fts, vec, k, w);
    var top := Prefix(ranking, limit);
    RankingElements(fts, vec, k, w);
    RankingMembers(fts, vec, k, w, a);
    forall j | 0 <= j < |top| && top[j].id == b ensures exists i :: 0 <= i < j && top[i].id == a {
      assert ranking[j] in ranking && ranking[j] == top[j];
      var i :| 0 <= i < |ranking| && ranking[i] == Fuse(fts, vec, k, w, a);
      assert i < j && top[i].id == a;
    }
  }

  /** Found at this place by the text search alone, or by the vector search alone. */
  ghost predicate OnlyText(fts: seq<int>, vec: seq<int>, id: int, place: Place) {
    LastPlace(fts, id, Some(place)) && id !in vec
  }

  ghost predicate OnlyVector(fts: seq<int>, vec: seq<int>, id: int, place: Place) {
    id !in fts && LastPlace(vec, id, Some(place))
  }

  lemma LastPlaceIsRank(list: seq<int>, id: int, rank: Option<Place>)
    requires LastPlace(list, id, rank)
    ensures Rank(list, id) == rank
  {
    RankIsLastPlace(list, id);
  }

  lemma SinglesOrder(fts: seq<int>, vec: seq<int>, k: nat, w: Weights, limit: nat, a: int, r: Place, b: int, s: Place,
      textFirst: bool)
    requires OnlyText(fts, vec, a, r) && OnlyVector(fts, vec, b, s)
    requires textFirst <==> w.fts * (k + s) as real >= w.vec * (k + r) as real
    ensures var top := Prefix(Ranking(fts, vec, k, w), limit);
      if textFirst then Leads(top, a, b) else Leads(top, b, a)
  {
    LastPlaceIsRank(fts, a, Some(r));
    LastPlaceIsRank(vec, a, None);
    LastPlaceIsRank(fts, b, None);
    LastPlaceIsRank(vec, b, Some(s));
    assert a in fts && b in vec;
    TextBeatsVector(w, k, r, s);
    FirstSeenConcat(fts, vec, a, b);
    RankingOrder(fts, vec, k, w, a, b);
    RankingOrder(fts, vec, k, w, b, a);
    if textFirst {
      EarlierLeads(fts, vec, k, w, limit, a, b);
    } else {
      EarlierLeads(fts, vec, k, w, limit, b, a);
    }
  }

  /** The products in whole numbers, where the weights follow from the query. */
  lemma AdaptiveProducts(words: nat, x: nat, y: nat)
    ensures var w := AdaptiveWeights(words);
      w.fts * x as real >= w.vec * y as real <==>
        if words <= 3 then 15 * x >= 7 * y else if words >= 12 then 7 * x >= 15 * y else x >= y
  {}

  /** The text hit goes first, where x is k plus the place of the vector hit and y is k plus its own. */
  ghost predicate TextFirst(words: nat, ftsWeight: Option<real>, vecWeight: Option<real>, x: nat, y: nat) {
    if ftsWeight.Some? && vecWeight.Some? then ftsWeight.value * x as real >= vecWeight.value * y as real
    else if words <= 3 then 15 * x >= 7 * y
    else if words >= 12 then 7 * x >= 15 * y
    else x >= y
  }

  lemma ChosenProducts(words: nat, ftsWeight: Option<real>, vecWeight: Option<real>, x: nat, y: nat)
    ensures var w := ChosenWeights(words, ftsWeight, vecWeight);
      w.fts * x as real >= w.vec * y as real <==> TextFirst(words, ftsWeight, vecWeight, x, y)
  {
    if ftsWeight.None? || vecWeight.None? { AdaptiveProducts(words, x, y); }
  }

  /** Which of a text hit at place r and a vector hit at place s, neither found twice, a search lists
      first, exactly: with both weights given, by their products; otherwise by query length. */
  lemma SearchOrder(words: nat, fts: seq<int>, vec: seq<int>, k: nat, limit: nat,
      ftsWeight: Option<real>, vecWeight: Option<real>, a: int, r: Place, b: int, s: Place)
    requires OnlyText(fts, vec, a, r) && OnlyVector(fts, vec, b, s)
    ensures var top := Result(words, fts, vec, k, limit, ftsWeight, vecWeight);
      if TextFirst(words, ftsWeight, vecWeight, k + s, k + r) then Leads(top, a, b) else Leads(top, b, a)
  {
    var textFirst := TextFirst(words, ftsWeight, vecWeight, k + s, k + r);
    ChosenProducts(words, ftsWeight, vecWeight, k + s, k + r);
    SinglesOrder(fts, vec, k, ChosenWeights(words, ftsWeight, vecWeight), limit, a, r, b, s, textFirst);
  }

  /** In the result every id found twice leads every id found once. */
  ghost predicate BothLead(fts: seq<int>, vec: seq<int>, top: seq<Hit>) {
    forall a, b :: InBoth(fts, vec, a) && Found(fts, vec, b) && !InBoth(fts, vec, b) ==> Leads(top, a, b)
  }

  lemma BothFirstLead(fts: seq<int>, vec: seq<int>, k: nat, w: Weights, limit: nat)
    requires BothFirst(fts, vec, k, w)
    ensures BothLead(fts, vec, Prefix(Ranking(fts, vec, k, w), limit))
  {
    forall a, b | InBoth(fts, vec, a) && Found(fts, vec, b) && !InBoth(fts, vec, b)
      ensures Leads(Prefix(Ranking(fts, vec, k, w), limit), a, b)
    {
      EarlierLeads(fts, vec, k, w, limit, a, b);
    }
  }

  lemma WitnessShares(n: nat, id: int)
    requires n >= 2
    ensures InBoth(TextWitness(n), VectorWitness(n), id) <==> id == n
  {
    WitnessFound(n);
    var front := Count(n + 1, n - 1);
    assert VectorWitness(n) == front + [n];
  }

  /** In the witness something found once heads the ranking, so every cut of it shows the failure. */
  lemma WitnessFails(k: nat, w: Weights, n: nat, limit: nat)
    requires w.fts > 0.0 && w.vec > 0.0 && n >= 2 && limit >= 1 && !LowestWins(w, k, n)
    ensures !BothLead(TextWitness(n), VectorWitness(n), Prefix(Ranking(TextWitness(n), VectorWitness(n), k, w), limit))
  {
    var fts, vec := TextWitness(n), VectorWitness(n);
    var ranking := Ranking(fts, vec, k, w);
    WitnessFound(n);
    WitnessHead(k, w, n);
    var head := ranking[0].id;
    WitnessShares(n, head);
    NothingBeforeHead(ranking, limit, n);
    assert InBoth(fts, vec, n) && Found(fts, vec, head) && !InBoth(fts, vec, head);
  }

  lemma NothingBeforeHead(ranking: seq<Hit>, limit: nat, a: int)
    requires ranking != [] && limit >= 1
    ensures !Leads(Prefix(ranking, limit), a, ranking[0].id)
  {
    assert Prefix(ranking, limit)[0] == ranking[0];
  }

  lemma WitnessHead(k: nat, w: Weights, n: nat)
    requires w.fts > 0.0 && w.vec > 0.0 && n >= 2 && !LowestWins(w, k, n)
    ensures var ranking := Ranking(TextWitness(n), VectorWitness(n), k, w);
      ranking != [] && Found(TextWitness(n), VectorWitness(n), ranking[0].id) && ranking[0].id != n
  {
    var fts, vec := TextWitness(n), VectorWitness(n);
    var ranking := Ranking(fts, vec, k, w);
    WitnessFound(n);
    NotSeparated(k, w, n);
    RankingElements(fts, vec, k, w);
    RankingMembers(fts, vec, k, w, n);
    var a, b :| InBoth(fts, vec, a) && Found(fts, vec, b) && !InBoth(fts, vec, b) &&
      !Earlier(ranking, Fuse(fts, vec, k, w, a), Fuse(fts, vec, k, w, b));
    WitnessShares(n, a);
    HeadIsNot(ranking, Fuse(fts, vec, k, w, n), Fuse(fts, vec, k, w, b));
    assert ranking[0] in ranking;
  }

  lemma HeadIsNot(s: seq<Hit>, a: Hit, b: Hit)
    requires Distinct(s) && a in s && a != b && !Earlier(s, a, b)
    ensures s[0] != a
  {}

  /** For the search itself: with the constants of the code and no weights given, ids found twice
      lead, for all lists the engines can return, exactly up to a limit of 20, or 9 for short and
      long queries. */
  lemma SearchSeparates(words: nat, limit: nat)
    ensures limit <= (if 3 < words < 12 then 20 else 9) <==>
      forall fts, vec :: Lists(fts, vec, 3 * limit) ==>
        BothLead(fts, vec, Result(words, fts, vec, DEFAULT_K, limit, None, None))
  {
    var w, n := AdaptiveWeights(words), 3 * limit;
    SeparatingLimits(limit, words);
    if Separated(w, DEFAULT_K, n) {
      BothFirstExactly(DEFAULT_K, w, n);
      forall fts, vec | Lists(fts, vec, n) ensures BothLead(fts, vec, Result(words, fts, vec, DEFAULT_K, limit, None, None)) {
        BothFirstLead(fts, vec, DEFAULT_K, w, limit);
      }
    } else {
      FewAreSeparated(DEFAULT_K, w, n);
      SeparatedMeans(w, DEFAULT_K, n);
      WitnessLists(n);
      WitnessFails(DEFAULT_K, w, n, limit);
    }
  }
}
