/** Similar books: chunk hits, best first, are reduced to one entry per parent book. */
module SimilarBooks {
  import opened Basics
  import opened StableSort
  import opened RankFusion

  /** A chunk hit; an absent or empty parent is the empty string. */
  datatype Hit = Hit(parent: string, score: real)

  predicate Qualifies(h: Hit, minScore: real) {
    h.parent != "" && !(minScore > 0.0 && h.score < minScore)
  }

  predicate BestFirst(hits: seq<Hit>) {
    forall i, j :: 0 <= i < j < |hits| ==> hits[i].score >= hits[j].score
  }

  /** The parents of the qualifying hits, in hit order, with repeats. */
  function Parents(hits: seq<Hit>, minScore: real): seq<string> {
    if |hits| == 0 then []
    else
      var h := hits[|hits| - 1];
      Parents(hits[..|hits| - 1], minScore) + if Qualifies(h, minScore) then [h.parent] else []
  }

  function DistinctParents(hits: seq<Hit>, minScore: real): seq<string> {
    Firsts(Parents(hits, minScore))
  }

  /** `v` is the highest score among all qualifying hits of the parent. */
  ghost predicate IsBestScore(hits: seq<Hit>, minScore: real, parent: string, v: real) {
    && (exists h :: h in hits && Qualifies(h, minScore) && h.parent == parent && h.score == v)
    && (forall h :: h in hits && Qualifies(h, minScore) && h.parent == parent ==> h.score <= v)
  }

  // ---------------------------------------------------------------------------------------------

  /** `seen` in insertion order: the loop's dictionary after the hits `done`. */
  ghost predicate SeenAfter(done: seq<Hit>, minScore: real, seen: seq<Scored<string>>) {
    && RankedItems(seen) == DistinctParents(done, minScore)
    && (forall s :: s in seen ==> IsBestScore(done, minScore, s.item, s.score))
  }

  function Position(seen: seq<Scored<string>>, parent: string): (i: int)
    ensures i < |seen| && (i >= 0 ==> seen[i].item == parent)
    ensures i < 0 ==> parent !in RankedItems(seen)
  {
    if |seen| == 0 then -1
    else if seen[|seen| - 1].item == parent then |seen| - 1
    else
      assert RankedItems(seen) == RankedItems(seen[..|seen| - 1]) + [seen[|seen| - 1].item];
      Position(seen[..|seen| - 1], parent)
  }

  lemma BestScoreOfSkipped(done: seq<Hit>, h: Hit, minScore: real, parent: string, v: real)
    requires IsBestScore(done, minScore, parent, v)
    requires !Qualifies(h, minScore) || h.parent != parent || h.score <= v
    ensures IsBestScore(done + [h], minScore, parent, v)
  {
    var w :| w in done && Qualifies(w, minScore) && w.parent == parent && w.score == v;
    assert w in done + [h];
  }

  lemma BestScoreOfRaised(done: seq<Hit>, h: Hit, minScore: real, v: real)
    requires IsBestScore(done, minScore, h.parent, v) && Qualifies(h, minScore) && h.score > v
    ensures IsBestScore(done + [h], minScore, h.parent, h.score)
  {
    assert h in done + [h];
  }

  lemma {:induction false} UnseenHasNoHit(done: seq<Hit>, minScore: real, parent: string)
    requires parent !in Parents(done, minScore)
    ensures forall h :: h in done && Qualifies(h, minScore) ==> h.parent != parent
  {
    if |done| > 0 {
      var front, last := done[..|done| - 1], done[|done| - 1];
      var tail := if Qualifies(last, minScore) then [last.parent] else [];
      assert Parents(done, minScore) == Parents(front, minScore) + tail;
      UnseenHasNoHit(front, minScore, parent);
      assert done == front + [last];
      assert Qualifies(last, minScore) ==> last.parent in tail;
    }
  }

  lemma ParentsStep(done: seq<Hit>, h: Hit, minScore: real)
    ensures Parents(done + [h], minScore) == Parents(done, minScore) + if Qualifies(h, minScore) then [h.parent] else []
    ensures DistinctParents(done + [h], minScore)
         == if Qualifies(h, minScore) && h.parent !in DistinctParents(done, minScore)
            then DistinctParents(done, minScore) + [h.parent] else DistinctParents(done, minScore)
  {
    assert (done + [h])[..|done|] == done;
    var ps := Parents(done, minScore);
    assert (ps + [h.parent])[..|ps|] == ps;
    assert ps + [] == ps;
  }

  lemma SkipKeepsSeen(done: seq<Hit>, h: Hit, minScore: real, seen: seq<Scored<string>>)
    requires SeenAfter(done, minScore, seen) && !Qualifies(h, minScore)
    ensures SeenAfter(done + [h], minScore, seen)
  {
    ParentsStep(done, h, minScore);
    forall s | s in seen ensures IsBestScore(done + [h], minScore, s.item, s.score) {
      BestScoreOfSkipped(done, h, minScore, s.item, s.score);
    }
  }

  lemma FirstHitIsBest(done: seq<Hit>, h: Hit, minScore: real)
    requires Qualifies(h, minScore) && h.parent !in Parents(done, minScore)
    ensures IsBestScore(done + [h], minScore, h.parent, h.score)
  {
    UnseenHasNoHit(done, minScore, h.parent);
    assert h in done + [h];
  }

  lemma OthersKeepTheirBest(done: seq<Hit>, h: Hit, minScore: real, seen0: seq<Scored<string>>)
    requires SeenAfter(done, minScore, seen0) && h.parent !in RankedItems(seen0)
    ensures forall s :: s in seen0 ==> IsBestScore(done + [h], minScore, s.item, s.score)
  {
    forall s | s in seen0 ensures IsBestScore(done + [h], minScore, s.item, s.score) {
      ItemIsListed(seen0, s);
      BestScoreOfSkipped(done, h, minScore, s.item, s.score);
    }
  }

  lemma NewParentNoted(done: seq<Hit>, h: Hit, minScore: real, seen0: seq<Scored<string>>)
    requires SeenAfter(done, minScore, seen0) && Qualifies(h, minScore) && h.parent !in RankedItems(seen0)
    ensures SeenAfter(done + [h], minScore, seen0 + [Scored(h.parent, h.score)])
  {
    var seen := seen0 + [Scored(h.parent, h.score)];
    assert RankedItems(seen) == DistinctParents(done + [h], minScore) by {
      ParentsStep(done, h, minScore);
      assert RankedItems(seen) == RankedItems(seen0) + [h.parent];
    }
    assert h.parent !in Parents(done, minScore);
    FirstHitIsBest(done, h, minScore);
    OthersKeepTheirBest(done, h, minScore, seen0);
    forall s | s in seen ensures IsBestScore(done + [h], minScore, s.item, s.score) {
      assert s in seen0 || s == Scored(h.parent, h.score);
    }
  }

  lemma ItemIsListed(seen: seq<Scored<string>>, s: Scored<string>)
    requires s in seen
    ensures s.item in RankedItems(seen)
  {
    var i :| 0 <= i < |seen| && seen[i] == s;
    assert RankedItems(seen)[i] == s.item;
  }

  lemma KnownParentStays(done: seq<Hit>, h: Hit, minScore: real, seen0: seq<Scored<string>>, at: nat)
    requires SeenAfter(done, minScore, seen0) && Qualifies(h, minScore)
    requires at < |seen0| && seen0[at].item == h.parent && h.score <= seen0[at].score
    ensures SeenAfter(done + [h], minScore, seen0)
  {
    ParentsStep(done, h, minScore);
    assert RankedItems(seen0)[at] == h.parent;
    forall s | s in seen0 ensures IsBestScore(done + [h], minScore, s.item, s.score) {
      if s.item == h.parent {
        OneEntryPerParent(done, minScore, seen0, s, at);
      }
      BestScoreOfSkipped(done, h, minScore, s.item, s.score);
    }
  }

  lemma OneEntryPerParent(done: seq<Hit>, minScore: real, seen: seq<Scored<string>>, s: Scored<string>, at: nat)
    requires SeenAfter(done, minScore, seen) && s in seen && at < |seen| && seen[at].item == s.item
    ensures seen[at] == s
  {
    var i :| 0 <= i < |seen| && seen[i] == s;
    assert RankedItems(seen)[i] == RankedItems(seen)[at];
  }

  lemma KnownParentRaised(done: seq<Hit>, h: Hit, minScore: real, seen0: seq<Scored<string>>, at: nat)
    requires SeenAfter(done, minScore, seen0) && Qualifies(h, minScore)
    requires at < |seen0| && seen0[at].item == h.parent && h.score > seen0[at].score
    ensures SeenAfter(done + [h], minScore, seen0[at := Scored(h.parent, h.score)])
  {
    var seen := seen0[at := Scored(h.parent, h.score)];
    ParentsStep(done, h, minScore);
    assert RankedItems(seen0)[at] == h.parent && RankedItems(seen) == RankedItems(seen0);
    assert seen0[at] in seen0;
    BestScoreOfRaised(done, h, minScore, seen0[at].score);
    forall i | 0 <= i < |seen| ensures IsBestScore(done + [h], minScore, seen[i].item, seen[i].score) {
      if i != at {
        assert seen0[i] in seen0 && RankedItems(seen0)[i] != RankedItems(seen0)[at];
        BestScoreOfSkipped(done, h, minScore, seen[i].item, seen[i].score);
      }
    }
  }

  /** One qualifying hit: a new parent is appended, a known one raised to the higher score. */
  method Note(ghost done: seq<Hit>, h: Hit, minScore: real, seen0: seq<Scored<string>>)
    returns (seen: seq<Scored<string>>)
    requires SeenAfter(done, minScore, seen0) && Qualifies(h, minScore)
    ensures SeenAfter(done + [h], minScore, seen)
  {
    var at := Position(seen0, h.parent);
    if at < 0 {
      NewParentNoted(done, h, minScore, seen0);
      seen := seen0 + [Scored(h.parent, h.score)];
    } else if h.score > seen0[at].score {
      KnownParentRaised(done, h, minScore, seen0, at);
      seen := seen0[at := Scored(h.parent, h.score)];
    } else {
      KnownParentStays(done, h, minScore, seen0, at);
      seen := seen0;
    }
  }

  /** The loop with its early exit; `i` hits have been read when it stops. */
  method Collect(hits: seq<Hit>, limit: int, minScore: real) returns (seen: seq<Scored<string>>, ghost i: nat)
    requires limit >= 1
    ensures i <= |hits| && SeenAfter(hits[..i], minScore, seen)
    ensures |seen| <= limit && (i < |hits| ==> |seen| == limit)
  {
    seen := [];
    i := 0;
    for n := 0 to |hits|
      invariant i == n && SeenAfter(hits[..n], minScore, seen)
      invariant |seen| < limit
    {
      var h := hits[n];
      assert hits[..n + 1] == hits[..n] + [h];
      i := n + 1;
      if !Qualifies(h, minScore) {
        SkipKeepsSeen(hits[..n], h, minScore, seen);
        continue;
      }
      ParentsStep(hits[..n], h, minScore);
      ghost var before := |RankedItems(seen)|;
      seen := Note(hits[..n], h, minScore, seen);
      assert |seen| == |RankedItems(seen)| <= before + 1;
      if |seen| >= limit {
        break;
      }
    }
  }

  /** At most `limit` parents, best first.  For hits that arrive best first the early exit is
      harmless: the result is the first parents of the whole list with their best scores overall. */
  method TopSimilar(hits: seq<Hit>, limit: int, minScore: real) returns (ranked: seq<Scored<string>>)
    requires limit >= 1
    ensures |ranked| <= limit && Descending(ranked) && Distinct(RankedItems(ranked))
    ensures forall s :: s in ranked ==> s.item != "" && (minScore > 0.0 ==> s.score >= minScore)
    ensures forall s :: s in ranked ==> Hit(s.item, s.score) in hits
    ensures BestFirst(hits) ==> forall h :: h in hits && h.parent != "" && (minScore > 0.0 ==> h.score >= minScore) ==>
                                              ShownOrBeaten(ranked, h, limit)
    ensures BestFirst(hits) ==>
              && RankedItems(ranked) == DistinctParents(hits, minScore)[..Min(limit, |DistinctParents(hits, minScore)|)]
              && (forall s :: s in ranked ==> IsBestScore(hits, minScore, s.item, s.score))
  {
    var seen, i := Collect(hits, limit, minScore);
    SortDescendingSorts(seen);
    ranked := SortDescending(seen);
    KeptAreHits(hits, i, minScore, seen);
    SameMembers(seen);
    if BestFirst(hits) {
      CollectedIsTheTop(hits, i, limit, minScore, seen);
      BestAreShown(hits, i, limit, minScore, seen);
    }
  }

  /** The parent of the hit is listed with a score at least as high, or the list is full of such scores. */
  ghost predicate ShownOrBeaten(ranked: seq<Scored<string>>, h: Hit, limit: int) {
    || (exists s :: s in ranked && s.item == h.parent && s.score >= h.score)
    || (|ranked| == limit && forall s :: s in ranked ==> s.score >= h.score)
  }

  lemma KeptAreHits(hits: seq<Hit>, i: nat, minScore: real, seen: seq<Scored<string>>)
    requires i <= |hits| && SeenAfter(hits[..i], minScore, seen)
    ensures forall s :: s in seen ==>
              && s.item != "" && (minScore > 0.0 ==> s.score >= minScore)
              && Hit(s.item, s.score) in hits[..i] && Hit(s.item, s.score) in hits
  {
    forall s | s in seen
      ensures s.item != "" && (minScore > 0.0 ==> s.score >= minScore)
      ensures Hit(s.item, s.score) in hits[..i] && Hit(s.item, s.score) in hits
    {
      var w :| w in hits[..i] && Qualifies(w, minScore) && w.parent == s.item && w.score == s.score;
      assert w == Hit(s.item, s.score);
    }
  }

  lemma SameMembers(seen: seq<Scored<string>>)
    requires Distinct(RankedItems(seen))
    ensures forall s :: s in SortDescending(seen) <==> s in seen
    ensures Distinct(RankedItems(SortDescending(seen)))
  {
    var sorted := SortDescending(seen);
    SortDescendingSorts(seen);
    assert forall s :: s in seen <==> s in multiset(seen);
    assert forall s :: s in sorted <==> s in multiset(sorted);
    SortKeepsItems(seen);
    DistinctByCount(RankedItems(seen));
    DistinctByCount(RankedItems(sorted));
  }

  lemma BestAreShown(hits: seq<Hit>, i: nat, limit: int, minScore: real, seen: seq<Scored<string>>)
    requires BestFirst(hits) && i <= |hits| && SeenAfter(hits[..i], minScore, seen)
    requires |seen| <= limit && (i < |hits| ==> |seen| == limit)
    ensures forall h :: h in hits && h.parent != "" && (minScore > 0.0 ==> h.score >= minScore) ==>
                          ShownOrBeaten(seen, h, limit)
  {
    KeptAreHits(hits, i, minScore, seen);
    forall h | h in hits && h.parent != "" && (minScore > 0.0 ==> h.score >= minScore)
      ensures ShownOrBeaten(seen, h, limit)
    {
      var b :| 0 <= b < |hits| && hits[b] == h;
      if b < i {
        assert hits[..i][b] == h;
        ReadHitIsSeen(hits[..i], minScore, seen, h);
      } else {
        forall s | s in seen ensures s.score >= h.score {
          var a :| 0 <= a < i && hits[..i][a] == Hit(s.item, s.score);
          assert hits[a].score >= hits[b].score;
        }
      }
    }
  }

  lemma ReadHitIsSeen(done: seq<Hit>, minScore: real, seen: seq<Scored<string>>, h: Hit)
    requires SeenAfter(done, minScore, seen) && h in done && Qualifies(h, minScore)
    ensures exists s :: s in seen && s.item == h.parent && s.score >= h.score
  {
    if h.parent !in Parents(done, minScore) {
      UnseenHasNoHit(done, minScore, h.parent);
    }
    var k :| 0 <= k < |RankedItems(seen)| && RankedItems(seen)[k] == h.parent;
    assert seen[k] in seen;
  }

  lemma CollectedIsTheTop(hits: seq<Hit>, i: nat, limit: int, minScore: real, seen: seq<Scored<string>>)
    requires BestFirst(hits) && limit >= 1 && i <= |hits| && SeenAfter(hits[..i], minScore, seen)
    requires |seen| <= limit && (i < |hits| ==> |seen| == limit)
    ensures SortDescending(seen) == seen
    ensures RankedItems(seen) == DistinctParents(hits, minScore)[..Min(limit, |DistinctParents(hits, minScore)|)]
    ensures forall s :: s in seen ==> IsBestScore(hits, minScore, s.item, s.score)
  {
    SeenIsSorted(hits[..i], minScore, seen);
    SortedStays(seen);
    EarlyExitMissesNothing(hits, i, minScore, seen);
    assert |RankedItems(seen)| == |seen|;
    if i == |hits| {
      assert hits[..i] == hits;
    }
  }

  /** The last hit brings the parent of `w`, and everything before it scored no less. */
  lemma NewestParentIsLast(front: seq<Hit>, last: Hit, minScore: real, parent: string, newest: string, v: real, w: real)
    requires BestFirst(front + [last]) && parent in Parents(front, minScore) && newest !in Parents(front, minScore)
    requires IsBestScore(front, minScore, parent, v) && IsBestScore(front + [last], minScore, newest, w)
    ensures v >= w
  {
    var done := front + [last];
    var h :| h in front && Qualifies(h, minScore) && h.parent == parent && h.score == v;
    var g :| g in done && Qualifies(g, minScore) && g.parent == newest && g.score == w;
    UnseenHasNoHit(front, minScore, newest);
    assert g == last;
    var i :| 0 <= i < |front| && front[i] == h;
    assert done[i] == h && done[|front|] == last;
  }

  /** The parents before the last hit come first; the last hit adds at most one, a new one. */
  lemma ParentAt(front: seq<Hit>, last: Hit, minScore: real, j: nat)
    requires j < |DistinctParents(front + [last], minScore)|
    ensures var ps, before := DistinctParents(front + [last], minScore), DistinctParents(front, minScore);
            if j < |before| then ps[j] == before[j] && ps[j] in Parents(front, minScore)
            else j == |before| && ps[j] !in Parents(front, minScore)
  {
    ParentsStep(front, last, minScore);
    var before := DistinctParents(front, minScore);
    if j < |before| {
      assert before[j] in before;
    }
  }

  /** In best-first order a parent that appears earlier has a best score at least as high. */
  lemma {:induction false} EarlierParentIsBetter(done: seq<Hit>, minScore: real, i: int, j: int, v: real, w: real)
    requires BestFirst(done) && 0 <= i < j < |DistinctParents(done, minScore)|
    requires IsBestScore(done, minScore, DistinctParents(done, minScore)[i], v)
    requires IsBestScore(done, minScore, DistinctParents(done, minScore)[j], w)
    ensures v >= w
    decreases |done|
  {
    var front, last := done[..|done| - 1], done[|done| - 1];
    assert done == front + [last];
    ParentAt(front, last, minScore, i);
    ParentAt(front, last, minScore, j);
    var parent, other := DistinctParents(done, minScore)[i], DistinctParents(done, minScore)[j];
    BestOfFront(front, last, minScore, parent, v);
    if j < |DistinctParents(front, minScore)| {
      BestOfFront(front, last, minScore, other, w);
      EarlierParentIsBetter(front, minScore, i, j, v, w);
    } else {
      NewestParentIsLast(front, last, minScore, parent, other, v, w);
    }
  }

  /** For a parent already seen, a later hit of a best-first list changes nothing. */
  lemma BestOfFront(front: seq<Hit>, last: Hit, minScore: real, parent: string, v: real)
    requires BestFirst(front + [last]) && parent in Parents(front, minScore)
    requires IsBestScore(front + [last], minScore, parent, v)
    ensures IsBestScore(front, minScore, parent, v)
  {
    SeenHasHit(front, minScore, parent);
    var g :| g in front && Qualifies(g, minScore) && g.parent == parent;
    var h :| h in front + [last] && Qualifies(h, minScore) && h.parent == parent && h.score == v;
    assert g in front + [last];
    var i :| 0 <= i < |front| && front[i] == g;
    assert (front + [last])[i] == g && (front + [last])[|front|] == last;
    assert g.score >= last.score;
    forall x | x in front && Qualifies(x, minScore) && x.parent == parent ensures x.score <= v {
      assert x in front + [last];
    }
  }

  lemma {:induction false} SeenHasHit(done: seq<Hit>, minScore: real, parent: string)
    requires parent in Parents(done, minScore)
    ensures exists h :: h in done && Qualifies(h, minScore) && h.parent == parent
  {
    var front, last := done[..|done| - 1], done[|done| - 1];
    assert done == front + [last];
    ParentsStep(front, last, minScore);
    if parent in Parents(front, minScore) {
      SeenHasHit(front, minScore, parent);
      var h :| h in front && Qualifies(h, minScore) && h.parent == parent;
      assert h in done;
    } else {
      assert last in done;
    }
  }

  lemma SeenIsSorted(done: seq<Hit>, minScore: real, seen: seq<Scored<string>>)
    requires BestFirst(done) && SeenAfter(done, minScore, seen)
    ensures Descending(seen)
  {
    var ps := DistinctParents(done, minScore);
    assert |ps| == |seen|;
    forall i, j | 0 <= i < j < |seen| ensures seen[i].score >= seen[j].score {
      assert RankedItems(seen)[i] == ps[i] && RankedItems(seen)[j] == ps[j];
      assert seen[i] in seen && seen[j] in seen;
      EarlierParentIsBetter(done, minScore, i, j, seen[i].score, seen[j].score);
    }
  }

  lemma {:induction false} PrefixParents(hits: seq<Hit>, i: nat, minScore: real)
    requires i <= |hits|
    ensures DistinctParents(hits[..i], minScore) <= DistinctParents(hits, minScore)
    decreases |hits|
  {
    if i == |hits| {
      assert hits[..i] == hits;
    } else {
      var front, last := hits[..|hits| - 1], hits[|hits| - 1];
      assert hits == front + [last] && front[..i] == hits[..i];
      ParentsStep(front, last, minScore);
      PrefixParents(front, i, minScore);
    }
  }

  /** The hits after the early exit cannot change what was kept. */
  lemma EarlyExitMissesNothing(hits: seq<Hit>, i: nat, minScore: real, seen: seq<Scored<string>>)
    requires BestFirst(hits) && i <= |hits| && SeenAfter(hits[..i], minScore, seen)
    ensures |seen| <= |DistinctParents(hits, minScore)|
    ensures RankedItems(seen) == DistinctParents(hits, minScore)[..|seen|]
    ensures forall s :: s in seen ==> IsBestScore(hits, minScore, s.item, s.score)
  {
    PrefixParents(hits, i, minScore);
    assert |RankedItems(seen)| == |seen|;
    forall s | s in seen ensures IsBestScore(hits, minScore, s.item, s.score) {
      LaterHitsAreNoBetter(hits, i, minScore, s.item, s.score);
    }
  }

  lemma LaterHitsAreNoBetter(hits: seq<Hit>, i: nat, minScore: real, parent: string, v: real)
    requires BestFirst(hits) && i <= |hits| && IsBestScore(hits[..i], minScore, parent, v)
    ensures IsBestScore(hits, minScore, parent, v)
  {
    var w :| w in hits[..i] && Qualifies(w, minScore) && w.parent == parent && w.score == v;
    var a :| 0 <= a < i && hits[..i][a] == w;
    assert hits[a] == w;
    forall h | h in hits && Qualifies(h, minScore) && h.parent == parent ensures h.score <= v {
      var b :| 0 <= b < |hits| && hits[b] == h;
      if b < i {
        assert hits[..i][b] == h && h in hits[..i];
      }
    }
  }

  /** Every qualifying parent that is left out scores no higher than any that is kept. */
  lemma OmittedScoreNoHigher(hits: seq<Hit>, minScore: real, n: nat, kept: string, omitted: string, v: real, w: real)
    requires BestFirst(hits) && n <= |DistinctParents(hits, minScore)|
    requires kept in DistinctParents(hits, minScore)[..n] && omitted in DistinctParents(hits, minScore)[n..]
    requires IsBestScore(hits, minScore, kept, v) && IsBestScore(hits, minScore, omitted, w)
    ensures v >= w
  {
    var ps := DistinctParents(hits, minScore);
    var i :| 0 <= i < n && ps[..n][i] == kept;
    var j :| 0 <= j < |ps| - n && ps[n..][j] == omitted;
    assert ps[i] == kept && ps[n + j] == omitted;
    EarlierParentIsBetter(hits, minScore, i, n + j, v, w);
  }
}
