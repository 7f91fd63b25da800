/** Reciprocal rank fusion of a keyword list and a semantic list.  Scores are reals. */
module RankFusion {
  import opened Basics
  import opened StableSort

  datatype Doc = Doc(id: string, payload: string)

  function Ids(list: seq<Doc>): seq<string> {
    seq(|list|, i requires 0 <= i < |list| => list[i].id)
  }

  predicate DistinctIds(list: seq<Doc>) {
    Distinct(Ids(list))
  }

  /** The contribution of one rank; ranks start at one. */
  function Term(k: int, rank: int): real
    requires k >= 0 && rank >= 1
  {
    1.0 / (k + rank) as real
  }

  /** All that one list contributes to a document. */
  function ListScore(k: int, list: seq<Doc>, id: string): real
    requires k >= 0
  {
    if |list| == 0 then 0.0
    else ListScore(k, list[..|list| - 1], id) + if list[|list| - 1].id == id then Term(k, |list|) else 0.0
  }

  /** What a list of `n` entries contributes in all. */
  function ListTotal(k: int, n: nat): real
    requires k >= 0
  {
    if n == 0 then 0.0 else ListTotal(k, n - 1) + Term(k, n)
  }

  function FusedScore(k: int, keyword: seq<Doc>, semantic: seq<Doc>, id: string): real
    requires k >= 0
  {
    ListScore(k, keyword, id) + ListScore(k, semantic, id)
  }

  /** The document shown for an id: the keyword result if there is one, else the first semantic one. */
  function Shown(keyword: seq<Doc>, semantic: seq<Doc>, id: string): Doc
    requires id in Ids(keyword) || id in Ids(semantic)
    ensures Shown(keyword, semantic, id).id == id
    decreases |semantic|, |keyword|
  {
    if id in Ids(keyword) then
      var last := keyword[|keyword| - 1];
      if last.id == id then last
      else
        assert Ids(keyword) == Ids(keyword[..|keyword| - 1]) + [last.id];
        Shown(keyword[..|keyword| - 1], semantic, id)
    else
      var front := semantic[..|semantic| - 1];
      assert Ids(semantic) == Ids(front) + [semantic[|semantic| - 1].id];
      if id in Ids(front) then Shown(keyword, front, id) else semantic[|semantic| - 1]
  }

  function UnionOrder(keyword: seq<Doc>, semantic: seq<Doc>): seq<string> {
    Firsts(Ids(keyword) + Ids(semantic))
  }

  function Unsorted(k: int, keyword: seq<Doc>, semantic: seq<Doc>): seq<Scored<string>>
    requires k >= 0
  {
    var order := UnionOrder(keyword, semantic);
    seq(|order|, i requires 0 <= i < |order| => Scored(order[i], FusedScore(k, keyword, semantic, order[i])))
  }

  /** The specification: union of the ids by first occurrence, stably sorted by summed score. */
  function Ranked(k: int, keyword: seq<Doc>, semantic: seq<Doc>): seq<Scored<string>>
    requires k >= 0
  {
    SortDescending(Unsorted(k, keyword, semantic))
  }

  datatype Fused = Fused(doc: Doc, score: real)

  // ---------------------------------------------------------------------------------------------
  // The code
  // ---------------------------------------------------------------------------------------------

  lemma IdsSnoc(list: seq<Doc>, i: nat)
    requires i < |list|
    ensures Ids(list[..i + 1]) == Ids(list[..i]) + [list[i].id]
  { }

  lemma ScoreStep(k: int, list: seq<Doc>, i: nat, id: string)
    requires k >= 0 && i < |list|
    ensures ListScore(k, list[..i + 1], id)
         == ListScore(k, list[..i], id) + if list[i].id == id then Term(k, i + 1) else 0.0
  {
    assert list[..i + 1][..i] == list[..i];
  }

  /** The dictionary `scores` in insertion order `order`, after `seen` ids have been added. */
  ghost predicate IsOrderedDict(seen: seq<string>, order: seq<string>, scores: map<string, real>) {
    && order == Firsts(seen)
    && (forall id :: id in order <==> id in scores)
  }

  function GetOrZero(scores: map<string, real>, id: string): real {
    if id in scores then scores[id] else 0.0
  }

  lemma ScoreSteps(k: int, list: seq<Doc>, i: nat, before: map<string, real>, after: map<string, real>)
    requires k >= 0 && i < |list|
    requires after == before[list[i].id := GetOrZero(before, list[i].id) + Term(k, i + 1)]
    ensures forall x ::
              GetOrZero(after, x) - ListScore(k, list[..i + 1], x) == GetOrZero(before, x) - ListScore(k, list[..i], x)
  {
    forall x
      ensures GetOrZero(after, x) - ListScore(k, list[..i + 1], x) == GetOrZero(before, x) - ListScore(k, list[..i], x)
    {
      ScoreStep(k, list, i, x);
    }
  }

  lemma DictStep(seen: seq<string>, id: string, order: seq<string>, scores: map<string, real>, score: real)
    requires IsOrderedDict(seen, order, scores)
    ensures IsOrderedDict(seen + [id], if id in scores then order else order + [id], scores[id := score])
  {
    FirstsSnoc(seen, id);
  }

  /** What the first `i` documents of the list have added to the scores. */
  ghost predicate HasAdded(k: int, list: seq<Doc>, i: nat, scores0: map<string, real>, scores: map<string, real>)
    requires k >= 0 && i <= |list|
  {
    forall id :: GetOrZero(scores, id) == GetOrZero(scores0, id) + ListScore(k, list[..i], id)
  }

  lemma AddedStep(k: int, list: seq<Doc>, i: nat, scores0: map<string, real>, before: map<string, real>,
                  after: map<string, real>)
    requires k >= 0 && i < |list| && HasAdded(k, list, i, scores0, before)
    requires after == before[list[i].id := GetOrZero(before, list[i].id) + Term(k, i + 1)]
    ensures HasAdded(k, list, i + 1, scores0, after)
  {
    ScoreSteps(k, list, i, before, after);
    forall id ensures GetOrZero(after, id) == GetOrZero(scores0, id) + ListScore(k, list[..i + 1], id) {
      assert GetOrZero(before, id) == GetOrZero(scores0, id) + ListScore(k, list[..i], id);
    }
  }

  /** `scores[id] = score` on a dictionary that keeps the order of insertion. */
  method SetScore(order: seq<string>, scores: map<string, real>, id: string, score: real, ghost seen: seq<string>)
    returns (order': seq<string>, scores': map<string, real>)
    requires IsOrderedDict(seen, order, scores)
    ensures IsOrderedDict(seen + [id], order', scores') && scores' == scores[id := score]
  {
    DictStep(seen, id, order, scores, score);
    order' := if id in scores then order else order + [id];
    scores' := scores[id := score];
  }

  /** One pass over a list: `scores.get(id, 0.0) + 1/(k + rank)` for each document. */
  method AddList(k: int, list: seq<Doc>, order0: seq<string>, scores0: map<string, real>, ghost seen: seq<string>)
    returns (order: seq<string>, scores: map<string, real>)
    requires k >= 0 && IsOrderedDict(seen, order0, scores0)
    ensures IsOrderedDict(seen + Ids(list), order, scores)
    ensures forall id :: GetOrZero(scores, id) == GetOrZero(scores0, id) + ListScore(k, list, id)
  {
    order, scores := order0, scores0;
    ghost var done := seen;
    for i := 0 to |list|
      invariant done == seen + Ids(list[..i]) && IsOrderedDict(done, order, scores)
      invariant HasAdded(k, list, i, scores0, scores)
    {
      var id := list[i].id;
      ghost var before := scores;
      order, scores := SetScore(order, scores, id, GetOrZero(scores, id) + Term(k, i + 1), done);
      IdsSnoc(list, i);
      done := done + [id];
      AddedStep(k, list, i, scores0, before, scores);
    }
    assert list[..|list|] == list;
  }

  method ResultMap(keyword: seq<Doc>, semantic: seq<Doc>) returns (m: map<string, Doc>)
    ensures forall id :: id in m <==> id in Ids(keyword) || id in Ids(semantic)
    ensures forall id :: id in m ==> m[id] == Shown(keyword, semantic, id)
  {
    m := map[];
    for i := 0 to |keyword|
      invariant forall id :: id in m <==> id in Ids(keyword[..i])
      invariant forall id :: id in m ==> m[id] == Shown(keyword[..i], [], id)
    {
      assert Ids(keyword[..i + 1]) == Ids(keyword[..i]) + [keyword[i].id];
      assert keyword[..i + 1][..i] == keyword[..i];
      m := m[keyword[i].id := keyword[i]];
    }
    assert keyword[..|keyword|] == keyword;
    for i := 0 to |semantic|
      invariant forall id :: id in m <==> id in Ids(keyword) || id in Ids(semantic[..i])
      invariant forall id :: id in m ==> m[id] == Shown(keyword, semantic[..i], id)
    {
      assert Ids(semantic[..i + 1]) == Ids(semantic[..i]) + [semantic[i].id];
      assert semantic[..i + 1][..i] == semantic[..i];
      forall id | id in Ids(keyword)
        ensures Shown(keyword, semantic[..i], id) == Shown(keyword, semantic[..i + 1], id)
      {
        ShownInKeyword(keyword, semantic[..i], semantic[..i + 1], id);
      }
      if semantic[i].id !in m {
        m := m[semantic[i].id := semantic[i]];
      }
    }
    assert semantic[..|semantic|] == semantic;
  }

  lemma {:induction false} ShownInKeyword(keyword: seq<Doc>, a: seq<Doc>, b: seq<Doc>, id: string)
    requires id in Ids(keyword)
    ensures Shown(keyword, a, id) == Shown(keyword, b, id)
  {
    var n := |keyword| - 1;
    if keyword[n].id != id {
      assert Ids(keyword) == Ids(keyword[..n]) + [keyword[n].id];
      ShownInKeyword(keyword[..n], a, b, id);
    }
  }

  /** The result list: each ranked id with the document shown for it and its fused score. */
  ghost function FusedList(k: int, keyword: seq<Doc>, semantic: seq<Doc>): seq<Fused>
    requires k >= 0
  {
    var ranked := Ranked(k, keyword, semantic);
    RankedIds(k, keyword, semantic);
    assert forall i :: 0 <= i < |ranked| ==> ranked[i].item == RankedItems(ranked)[i];
    seq(|ranked|, i requires 0 <= i < |ranked| => Fused(Shown(keyword, semantic, ranked[i].item), ranked[i].score))
  }

  method ReciprocalRankFusion(keyword: seq<Doc>, semantic: seq<Doc>, k: int) returns (fused: seq<Fused>)
    requires k >= 0
    ensures fused == FusedList(k, keyword, semantic)
  {
    var items := ScoreItems(keyword, semantic, k);
    var resultMap := ResultMap(keyword, semantic);
    var ranked := SortDescending(items);
    RankedIds(k, keyword, semantic);
    fused := [];
    for i := 0 to |ranked|
      invariant |fused| == i
      invariant forall j :: 0 <= j < i ==>
                  && (ranked[j].item in Ids(keyword) || ranked[j].item in Ids(semantic))
                  && fused[j] == Fused(Shown(keyword, semantic, ranked[j].item), ranked[j].score)
    {
      assert ranked[i].item == RankedItems(ranked)[i];
      fused := fused + [Fused(resultMap[ranked[i].item], ranked[i].score)];
    }
  }

  /** The two accumulation loops; `scores.items()` in insertion order. */
  method ScoreItems(keyword: seq<Doc>, semantic: seq<Doc>, k: int) returns (items: seq<Scored<string>>)
    requires k >= 0
    ensures items == Unsorted(k, keyword, semantic)
  {
    var order, scores := AddList(k, keyword, [], map[], []);
    assert [] + Ids(keyword) == Ids(keyword);
    order, scores := AddList(k, semantic, order, scores, Ids(keyword));
    items := seq(|order|, i requires 0 <= i < |order| => Scored(order[i], GetOrZero(scores, order[i])));
    forall i | 0 <= i < |order| ensures items[i] == Unsorted(k, keyword, semantic)[i] {
      assert GetOrZero(map[], order[i]) == 0.0;
      assert GetOrZero(scores, order[i]) == FusedScore(k, keyword, semantic, order[i]);
    }
  }

  lemma {:induction false} UnlistedScoresNothing(k: int, list: seq<Doc>, id: string)
    requires k >= 0 && id !in Ids(list)
    ensures ListScore(k, list, id) == 0.0
  {
    if |list| > 0 {
      var n := |list| - 1;
      assert Ids(list) == Ids(list[..n]) + [list[n].id];
      UnlistedScoresNothing(k, list[..n], id);
    }
  }

  // ---------------------------------------------------------------------------------------------
  // What the fused ranking is
  // ---------------------------------------------------------------------------------------------

  function RankedItems(ranked: seq<Scored<string>>): seq<string> {
    seq(|ranked|, i requires 0 <= i < |ranked| => ranked[i].item)
  }

  lemma {:induction false} InsertKeepsItems(s: seq<Scored<string>>, x: Scored<string>)
    ensures multiset(RankedItems(Insert(s, x))) == multiset(RankedItems(s)) + multiset{x.item}
  {
    if |s| == 0 || s[|s| - 1].score >= x.score {
      assert RankedItems(s + [x]) == RankedItems(s) + [x.item];
    } else {
      var front, last := s[..|s| - 1], s[|s| - 1];
      InsertKeepsItems(front, x);
      assert RankedItems(s) == RankedItems(front) + [last.item];
      assert RankedItems(Insert(front, x) + [last]) == RankedItems(Insert(front, x)) + [last.item];
    }
  }

  lemma {:induction false} SortKeepsItems(s: seq<Scored<string>>)
    ensures multiset(RankedItems(SortDescending(s))) == multiset(RankedItems(s))
  {
    if |s| > 0 {
      var front, last := s[..|s| - 1], s[|s| - 1];
      SortKeepsItems(front);
      InsertKeepsItems(SortDescending(front), last);
      ItemsSnoc(front, last);
      assert s == front + [last];
    }
  }

  lemma ItemsSnoc(front: seq<Scored<string>>, last: Scored<string>)
    ensures multiset(RankedItems(front + [last])) == multiset(RankedItems(front)) + multiset{last.item}
  {
    assert RankedItems(front + [last]) == RankedItems(front) + [last.item];
  }

  lemma {:induction false} DistinctByCount(s: seq<string>)
    ensures Distinct(s) <==> forall x :: multiset(s)[x] <= 1
  {
    if |s| > 0 {
      var front, last := s[..|s| - 1], s[|s| - 1];
      DistinctByCount(front);
      assert s == front + [last];
      if Distinct(s) {
        assert last !in front;
        forall x ensures multiset(s)[x] <= 1 { assert multiset(front)[x] <= 1; }
      } else {
        var i, j :| 0 <= i < j < |s| && s[i] == s[j];
        if j == |s| - 1 {
          assert front[i] == last && last in multiset(front);
          assert multiset(s)[last] >= 2;
        } else {
          assert front[i] == front[j];
          var x :| multiset(front)[x] > 1;
          assert multiset(s)[x] > 1;
        }
      }
    }
  }

  lemma SameItems(s: seq<string>, t: seq<string>)
    requires multiset(s) == multiset(t) && Distinct(s)
    ensures Distinct(t) && forall x :: x in t <==> x in s
  {
    DistinctByCount(s);
    DistinctByCount(t);
    forall x ensures x in t <==> x in s {
      assert x in multiset(s) <==> x in multiset(t);
    }
  }

  /** The output lists every id of either input exactly once, with its summed score, in descending
      order; ties keep the order of first occurrence. */
  lemma RankedIds(k: int, keyword: seq<Doc>, semantic: seq<Doc>)
    requires k >= 0
    ensures var ranked := Ranked(k, keyword, semantic);
            && Distinct(RankedItems(ranked))
            && (forall id :: id in RankedItems(ranked) <==> id in Ids(keyword) || id in Ids(semantic))
            && (forall i :: 0 <= i < |ranked| ==> ranked[i].score == FusedScore(k, keyword, semantic, ranked[i].item))
            && Descending(ranked)
            && (forall v: real :: WithScore(ranked, v) == WithScore(Unsorted(k, keyword, semantic), v))
  {
    var unsorted, ranked := Unsorted(k, keyword, semantic), Ranked(k, keyword, semantic);
    SortDescendingSorts(unsorted);
    SortKeepsItems(unsorted);
    assert RankedItems(unsorted) == UnionOrder(keyword, semantic);
    SameItems(UnionOrder(keyword, semantic), RankedItems(ranked));
    forall i | 0 <= i < |ranked| ensures ranked[i].score == FusedScore(k, keyword, semantic, ranked[i].item) {
      assert ranked[i] in multiset(ranked);
      assert ranked[i] in unsorted;
    }
    forall v: real ensures WithScore(ranked, v) == WithScore(unsorted, v) {
      SortDescendingIsStable(unsorted, v);
    }
  }

  function SumOver(k: int, list: seq<Doc>, ids: seq<string>): real
    requires k >= 0
  {
    if |ids| == 0 then 0.0 else SumOver(k, list, ids[..|ids| - 1]) + ListScore(k, list, ids[|ids| - 1])
  }

  lemma {:induction false} SumOverSnoc(k: int, list: seq<Doc>, last: Doc, ids: seq<string>)
    requires k >= 0 && Distinct(ids)
    ensures SumOver(k, list + [last], ids)
         == SumOver(k, list, ids) + if last.id in ids then Term(k, |list| + 1) else 0.0
  {
    if |ids| > 0 {
      var front := ids[..|ids| - 1];
      SumOverSnoc(k, list, last, front);
      assert (list + [last])[..|list|] == list;
      assert ids == front + [ids[|ids| - 1]];
    }
  }

  lemma {:induction false} EveryTermIsCounted(k: int, list: seq<Doc>, ids: seq<string>)
    requires k >= 0 && Distinct(ids)
    requires forall i :: 0 <= i < |list| ==> list[i].id in ids
    ensures SumOver(k, list, ids) == ListTotal(k, |list|)
    decreases |list|
  {
    if |list| == 0 {
      EmptyListScoresNothing(k, ids);
    } else {
      var n := |list| - 1;
      EveryTermIsCounted(k, list[..n], ids);
      SumOverSnoc(k, list[..n], list[n], ids);
      assert list == list[..n] + [list[n]];
    }
  }

  lemma {:induction false} EmptyListScoresNothing(k: int, ids: seq<string>)
    requires k >= 0
    ensures SumOver(k, [], ids) == 0.0
  {
    if |ids| > 0 {
      EmptyListScoresNothing(k, ids[..|ids| - 1]);
    }
  }

  lemma {:induction false} TotalSplits(k: int, keyword: seq<Doc>, semantic: seq<Doc>, ids: seq<string>,
                                       items: seq<Scored<string>>)
    requires k >= 0 && |items| == |ids|
    requires forall i :: 0 <= i < |ids| ==> items[i] == Scored(ids[i], FusedScore(k, keyword, semantic, ids[i]))
    ensures Total(items) == SumOver(k, keyword, ids) + SumOver(k, semantic, ids)
  {
    if |ids| > 0 {
      TotalSplits(k, keyword, semantic, ids[..|ids| - 1], items[..|ids| - 1]);
    }
  }

  /** No score is created or lost: the fused scores add up to all reciprocal terms of both lists,
      also when a list repeats an id. */
  lemma TotalScoreIsConserved(k: int, keyword: seq<Doc>, semantic: seq<Doc>)
    requires k >= 0
    ensures Total(Ranked(k, keyword, semantic)) == ListTotal(k, |keyword|) + ListTotal(k, |semantic|)
  {
    var order := UnionOrder(keyword, semantic);
    SortDescendingSorts(Unsorted(k, keyword, semantic));
    TotalSplits(k, keyword, semantic, order, Unsorted(k, keyword, semantic));
    forall i | 0 <= i < |keyword| ensures keyword[i].id in order {
      assert Ids(keyword)[i] in Ids(keyword) + Ids(semantic);
    }
    forall i | 0 <= i < |semantic| ensures semantic[i].id in order {
      assert Ids(semantic)[i] in Ids(keyword) + Ids(semantic);
    }
    EveryTermIsCounted(k, keyword, order);
    EveryTermIsCounted(k, semantic, order);
  }

  /** With distinct ids a list contributes exactly the term of the document's rank. */
  lemma {:induction false} ListScoreIsTheTerm(k: int, list: seq<Doc>, i: nat)
    requires k >= 0 && i < |list| && DistinctIds(list)
    ensures ListScore(k, list, list[i].id) == Term(k, i + 1)
  {
    var n := |list| - 1;
    if i == n {
      DistinctFront(list);
      UnlistedScoresNothing(k, list[..n], list[n].id);
    } else {
      DistinctFront(list);
      assert Ids(list[..n])[i] == list[i].id && list[..n][i] == list[i];
      ListScoreIsTheTerm(k, list[..n], i);
    }
  }

  lemma DistinctFront(list: seq<Doc>)
    requires DistinctIds(list) && |list| > 0
    ensures var front, last := list[..|list| - 1], list[|list| - 1];
            DistinctIds(front) && last.id !in Ids(front)
  {
    var n := |list| - 1;
    assert Ids(list) == Ids(list[..n]) + [list[n].id];
    forall i, j | 0 <= i < j < n ensures Ids(list[..n])[i] != Ids(list[..n])[j] {
      assert Ids(list)[i] != Ids(list)[j];
    }
    forall i | 0 <= i < n ensures Ids(list[..n])[i] != list[n].id {
      assert Ids(list)[i] != Ids(list)[n];
    }
  }

  lemma TermDecreases(k: int, a: int, b: int)
    requires k >= 0 && 1 <= a < b
    ensures Term(k, a) > Term(k, b) > 0.0
  {
    var x, y := (k + a) as real, (k + b) as real;
    assert 0.0 < x < y;
    assert 1.0 / x - 1.0 / y == (y - x) / (x * y);
    assert x * y > 0.0;
  }

  lemma {:induction false} ListScoreNonNegative(k: int, list: seq<Doc>, id: string)
    requires k >= 0
    ensures ListScore(k, list, id) >= 0.0
  {
    if |list| > 0 {
      ListScoreNonNegative(k, list[..|list| - 1], id);
    }
  }

  /** `d` is ahead of `e` in this list, or `e` does not occur in it. */
  predicate AheadIn(list: seq<Doc>, d: string, e: string) {
    e in Ids(list) ==> exists i, j :: 0 <= i < j < |list| && list[i].id == d && list[j].id == e
  }

  lemma AheadScoresMore(k: int, list: seq<Doc>, d: string, e: string)
    requires k >= 0 && DistinctIds(list) && AheadIn(list, d, e)
    ensures ListScore(k, list, d) >= ListScore(k, list, e)
    ensures e in Ids(list) ==> ListScore(k, list, d) > ListScore(k, list, e)
  {
    if e in Ids(list) {
      var i, j :| 0 <= i < j < |list| && list[i].id == d && list[j].id == e;
      ListScoreIsTheTerm(k, list, i);
      ListScoreIsTheTerm(k, list, j);
      TermDecreases(k, i + 1, j + 1);
    } else {
      UnlistedScoresNothing(k, list, e);
      ListScoreNonNegative(k, list, d);
    }
  }

  /** A document ahead of another in every list where the other occurs precedes it in the result. */
  lemma AheadEverywherePrecedes(k: int, keyword: seq<Doc>, semantic: seq<Doc>, i: nat, j: nat)
    requires k >= 0 && DistinctIds(keyword) && DistinctIds(semantic)
    requires var ranked := Ranked(k, keyword, semantic);
      && i < |ranked| && j < |ranked|
      && AheadIn(keyword, ranked[i].item, ranked[j].item) && AheadIn(semantic, ranked[i].item, ranked[j].item)
    ensures i < j
  {
    var ranked := Ranked(k, keyword, semantic);
    RankedIds(k, keyword, semantic);
    assert ranked[j].item == RankedItems(ranked)[j] && ranked[j].item in RankedItems(ranked);
    AheadScoresMore(k, keyword, ranked[i].item, ranked[j].item);
    AheadScoresMore(k, semantic, ranked[i].item, ranked[j].item);
    assert ranked[i].score > ranked[j].score;
  }

  // ---------------------------------------------------------------------------------------------
  // "Documents present in both lists score higher": when that is so
  // ---------------------------------------------------------------------------------------------

  /** The claim for two given lists: `both` is in each of them, `one` in exactly one. */
  predicate Compares(keyword: seq<Doc>, semantic: seq<Doc>, both: string, one: string) {
    && DistinctIds(keyword) && DistinctIds(semantic)
    && both in Ids(keyword) && both in Ids(semantic)
    && (one in Ids(keyword) <==> one !in Ids(semantic))
  }

  predicate Beats(k: int, keyword: seq<Doc>, semantic: seq<Doc>, both: string, one: string)
    requires k >= 0
  {
    FusedScore(k, keyword, semantic, both) > FusedScore(k, keyword, semantic, one)
  }

  /** The claim for all lists of `n` keyword and `m` semantic results. */
  ghost predicate BothAlwaysBeatOne(k: int, n: nat, m: nat)
    requires k >= 0
  {
    forall keyword, semantic, both, one
      | |keyword| == n && |semantic| == m && Compares(keyword, semantic, both, one) ::
      Beats(k, keyword, semantic, both, one)
  }

  /** A listed document scores at least the last term and at most the first one. */
  lemma ListedScore(k: int, list: seq<Doc>, id: string)
    requires k >= 0 && DistinctIds(list) && id in Ids(list)
    ensures Term(k, |list|) <= ListScore(k, list, id) <= Term(k, 1)
  {
    var r :| 0 <= r < |list| && Ids(list)[r] == id;
    ListScoreIsTheTerm(k, list, r);
    TermAtMostFirst(k, r + 1);
    if r + 1 < |list| {
      TermDecreases(k, r + 1, |list|);
    }
  }

  lemma BothBeatOneWhenTermsDo(k: int, keyword: seq<Doc>, semantic: seq<Doc>, both: string, one: string)
    requires k >= 0 && |keyword| >= 1 && |semantic| >= 1 && Compares(keyword, semantic, both, one)
    requires Term(k, |keyword|) + Term(k, |semantic|) > Term(k, 1)
    ensures Beats(k, keyword, semantic, both, one)
  {
    ListedScore(k, keyword, both);
    ListedScore(k, semantic, both);
    if one in Ids(keyword) {
      ListedScore(k, keyword, one);
      UnlistedScoresNothing(k, semantic, one);
    } else {
      ListedScore(k, semantic, one);
      UnlistedScoresNothing(k, keyword, one);
    }
  }

  /** The claim holds for all lists of two given lengths exactly when the last terms of both add up to
      more than the first term. */
  lemma BothBeatOneExactlyWhen(k: int, n: nat, m: nat)
    requires k >= 0 && n >= 1 && m >= 1
    ensures BothAlwaysBeatOne(k, n, m) <==> Term(k, n) + Term(k, m) > Term(k, 1)
  {
    if Term(k, n) + Term(k, m) > Term(k, 1) {
      forall keyword, semantic, both, one
        | |keyword| == n && |semantic| == m && Compares(keyword, semantic, both, one)
        ensures Beats(k, keyword, semantic, both, one)
      {
        BothBeatOneWhenTermsDo(k, keyword, semantic, both, one);
      }
    } else {
      var keyword, semantic, both, one := BothNeedNotBeatOne(k, n, m);
      assert Compares(keyword, semantic, both, one) && !Beats(k, keyword, semantic, both, one);
    }
  }

  /** For lists of equal length it holds up to `k + 1` results and fails from `k + 2` on. */
  lemma EqualLengthsExactlyWhen(k: int, n: nat)
    requires k >= 0 && n >= 1
    ensures BothAlwaysBeatOne(k, n, n) <==> n <= k + 1
  {
    BothBeatOneExactlyWhen(k, n, n);
    if n <= k + 1 {
      TwoTermsBeatOne(k, n, n);
    } else {
      if n > k + 2 { TermDecreases(k, k + 2, n); }
      TwiceTheLastTerm(k);
    }
  }

  lemma TwiceTheLastTerm(k: int)
    requires k >= 0
    ensures Term(k, k + 2) + Term(k, k + 2) == Term(k, 1)
  {
    var x := (k + 1) as real;
    assert (k + (k + 2)) as real == 2.0 * x;
    assert 1.0 / (2.0 * x) + 1.0 / (2.0 * x) == 1.0 / x;
  }

  /** With at most `k + 1` results per list, being in both lists always beats being in one. */
  lemma BothBeatOneInShortLists(k: int, keyword: seq<Doc>, semantic: seq<Doc>, both: string, one: string)
    requires k >= 0 && Compares(keyword, semantic, both, one)
    requires |keyword| <= k + 1 && |semantic| <= k + 1
    ensures FusedScore(k, keyword, semantic, both) > FusedScore(k, keyword, semantic, one)
  {
    TwoTermsBeatOne(k, |keyword|, |semantic|);
    BothBeatOneWhenTermsDo(k, keyword, semantic, both, one);
  }

  lemma TermAtMostFirst(k: int, t: int)
    requires k >= 0 && t >= 1
    ensures Term(k, t) <= Term(k, 1)
  {
    if t > 1 {
      TermDecreases(k, 1, t);
    }
  }

  lemma TwoTermsBeatOne(k: int, r: int, s: int)
    requires k >= 0 && 1 <= r <= k + 1 && 1 <= s <= k + 1
    ensures Term(k, r) + Term(k, s) > Term(k, 1)
  {
    if r < k + 1 { TermDecreases(k, r, k + 1); }
    if s < k + 1 { TermDecreases(k, s, k + 1); }
    var x := (k + 1) as real;
    var y := (k + (k + 1)) as real;
    assert Term(k, k + 1) == 1.0 / y && Term(k, 1) == 1.0 / x;
    TwiceTheInverse(x, y);
  }

  lemma TwiceTheInverse(x: real, y: real)
    requires 0.0 < x && 0.0 < y < 2.0 * x
    ensures 1.0 / y + 1.0 / y > 1.0 / x
  {
    assert 1.0 / y > 1.0 / (2.0 * x) by {
      assert 1.0 / y - 1.0 / (2.0 * x) == (2.0 * x - y) / (y * (2.0 * x));
      assert y * (2.0 * x) > 0.0;
    }
    assert 1.0 / (2.0 * x) + 1.0 / (2.0 * x) == 1.0 / x;
  }

  function Name(n: nat): string { seq(n, _ => 'x') }

  /** The length of the `i`-th name: `from`, `from + 1`, ..., except `last` for the last one. */
  function Size(from: nat, n: nat, last: nat, i: nat): nat {
    if i + 1 == n then last else from + i
  }

  function Results(from: nat, n: nat, last: nat): seq<Doc> {
    seq(n, i requires 0 <= i < n => Doc(Name(Size(from, n, last, i)), ""))
  }

  lemma ResultsDistinct(from: nat, n: nat, last: nat)
    requires last < from || last >= from + n
    ensures DistinctIds(Results(from, n, last))
    ensures forall i :: 0 <= i < n ==> |Results(from, n, last)[i].id| == Size(from, n, last, i)
  {
    var rs := Results(from, n, last);
    forall i | 0 <= i < n ensures |rs[i].id| == Size(from, n, last, i) {
      assert rs[i] == Doc(Name(Size(from, n, last, i)), "");
    }
    forall i, j | 0 <= i < j < n ensures rs[i].id != rs[j].id {
      assert |rs[i].id| == Size(from, n, last, i) && |rs[j].id| == Size(from, n, last, j);
    }
  }

  /** Last in both lists need not beat first in one. */
  lemma BothNeedNotBeatOne(k: int, n: nat, m: nat)
    returns (keyword: seq<Doc>, semantic: seq<Doc>, both: string, one: string)
    requires k >= 0 && n >= 1 && m >= 1 && Term(k, n) + Term(k, m) <= Term(k, 1)
    ensures |keyword| == n && |semantic| == m && Compares(keyword, semantic, both, one)
    ensures FusedScore(k, keyword, semantic, both) <= FusedScore(k, keyword, semantic, one)
  {
    assert n >= 2 by {
      TermPositive(k, m);
    }
    keyword, semantic := Results(1, n, 0), Results(n + 1, m, 0);
    both, one := keyword[n - 1].id, keyword[0].id;
    ResultsDistinct(1, n, 0);
    ResultsDistinct(n + 1, m, 0);
    assert semantic[m - 1] == keyword[n - 1];
    assert Ids(keyword)[n - 1] == both && Ids(semantic)[m - 1] == both && Ids(keyword)[0] == one;
    forall i | 0 <= i < m ensures Ids(semantic)[i] != one { assert |semantic[i].id| == Size(n + 1, m, 0, i); }
    ListScoreIsTheTerm(k, keyword, n - 1);
    ListScoreIsTheTerm(k, semantic, m - 1);
    ListScoreIsTheTerm(k, keyword, 0);
    UnlistedScoresNothing(k, semantic, one);
  }

  lemma TermPositive(k: int, r: int)
    requires k >= 0 && r >= 1
    ensures Term(k, r) > 0.0
  { }

  // ---------------------------------------------------------------------------------------------
  // Scores and documents, written out
  // ---------------------------------------------------------------------------------------------

  /** A document of rank `i + 1` in the keyword list and `j + 1` in the semantic one. */
  lemma ScoreIsTheReciprocalSum(k: int, keyword: seq<Doc>, semantic: seq<Doc>, i: nat, j: nat)
    requires k >= 0 && DistinctIds(keyword) && DistinctIds(semantic) && i < |keyword| && j < |semantic|
    ensures keyword[i].id == semantic[j].id ==>
              FusedScore(k, keyword, semantic, keyword[i].id) == 1.0 / (k + i + 1) as real + 1.0 / (k + j + 1) as real
    ensures keyword[i].id !in Ids(semantic) ==>
              FusedScore(k, keyword, semantic, keyword[i].id) == 1.0 / (k + i + 1) as real
    ensures semantic[j].id !in Ids(keyword) ==>
              FusedScore(k, keyword, semantic, semantic[j].id) == 1.0 / (k + j + 1) as real
  {
    ListScoreIsTheTerm(k, keyword, i);
    ListScoreIsTheTerm(k, semantic, j);
    if keyword[i].id !in Ids(semantic) { UnlistedScoresNothing(k, semantic, keyword[i].id); }
    if semantic[j].id !in Ids(keyword) { UnlistedScoresNothing(k, keyword, semantic[j].id); }
  }

  /** The document shown is the last keyword result with the id, or else the first semantic one. */
  lemma {:induction false} ShownComesFrom(keyword: seq<Doc>, semantic: seq<Doc>, id: string) returns (i: nat)
    requires id in Ids(keyword) || id in Ids(semantic)
    ensures id in Ids(keyword) ==>
              && i < |keyword| && keyword[i].id == id && Shown(keyword, semantic, id) == keyword[i]
              && forall j :: i < j < |keyword| ==> keyword[j].id != id
    ensures id !in Ids(keyword) ==>
              && i < |semantic| && semantic[i].id == id && Shown(keyword, semantic, id) == semantic[i]
              && forall j :: 0 <= j < i ==> semantic[j].id != id
    decreases |semantic|, |keyword|
  {
    if id in Ids(keyword) {
      var n := |keyword| - 1;
      i := n;
      if keyword[n].id != id {
        assert Ids(keyword) == Ids(keyword[..n]) + [keyword[n].id];
        i := ShownComesFrom(keyword[..n], semantic, id);
      }
    } else {
      var n := |semantic| - 1;
      assert Ids(semantic) == Ids(semantic[..n]) + [semantic[n].id];
      i := n;
      if id in Ids(semantic[..n]) {
        i := ShownComesFrom(keyword, semantic[..n], id);
      } else {
        forall j | 0 <= j < n ensures semantic[j].id != id {
          assert Ids(semantic[..n])[j] == semantic[j].id;
        }
      }
    }
  }

  /** Place by place: the fused list shows that document with the summed score, in descending order. */
  lemma FusedListIs(k: int, keyword: seq<Doc>, semantic: seq<Doc>, i: nat, j: nat)
    requires k >= 0 && i < j < |FusedList(k, keyword, semantic)|
    ensures var fused := FusedList(k, keyword, semantic);
            && fused[i].score == FusedScore(k, keyword, semantic, fused[i].doc.id)
            && fused[i].score >= fused[j].score && fused[i].doc.id != fused[j].doc.id
            && (fused[i].doc.id in Ids(keyword) || fused[i].doc.id in Ids(semantic))
            && fused[i].doc == Shown(keyword, semantic, fused[i].doc.id)
  {
    var ranked := Ranked(k, keyword, semantic);
    RankedIds(k, keyword, semantic);
    assert ranked[i].item == RankedItems(ranked)[i] && ranked[j].item == RankedItems(ranked)[j];
  }
}
