/** Python's `sorted(..., key=score, reverse=True)`: descending, equal scores keep their order. */
module StableSort {

  datatype Scored<T> = Scored(item: T, score: real)

  predicate Descending<T>(s: seq<Scored<T>>) {
    forall i, j :: 0 <= i < j < |s| ==> s[i].score >= s[j].score
  }

  /** Places `x` after everything that scores at least as much. */
  function Insert<T>(s: seq<Scored<T>>, x: Scored<T>): seq<Scored<T>> {
    if |s| == 0 || s[|s| - 1].score >= x.score then s + [x]
    else Insert(s[..|s| - 1], x) + [s[|s| - 1]]
  }

  function SortDescending<T>(s: seq<Scored<T>>): seq<Scored<T>> {
    if |s| == 0 then [] else Insert(SortDescending(s[..|s| - 1]), s[|s| - 1])
  }

  /** The elements with score `v`, in order: what stability is about. */
  function WithScore<T>(s: seq<Scored<T>>, v: real): seq<Scored<T>> {
    if |s| == 0 then []
    else WithScore(s[..|s| - 1], v) + if s[|s| - 1].score == v then [s[|s| - 1]] else []
  }

  function Total<T>(s: seq<Scored<T>>): real {
    if |s| == 0 then 0.0 else Total(s[..|s| - 1]) + s[|s| - 1].score
  }

  // ---------------------------------------------------------------------------------------------

  lemma WithScoreSnoc<T>(s: seq<Scored<T>>, x: Scored<T>, v: real)
    ensures WithScore(s + [x], v) == WithScore(s, v) + if x.score == v then [x] else []
    ensures Total(s + [x]) == Total(s) + x.score
  {
    assert (s + [x])[..|s + [x]| - 1] == s;
  }

  lemma {:induction false} NoneWithScore<T>(s: seq<Scored<T>>, v: real)
    requires forall i :: 0 <= i < |s| ==> s[i].score != v
    ensures WithScore(s, v) == []
  {
    if |s| > 0 {
      NoneWithScore(s[..|s| - 1], v);
    }
  }

  lemma {:induction false} InsertKeepsElements<T>(s: seq<Scored<T>>, x: Scored<T>)
    ensures multiset(Insert(s, x)) == multiset(s) + multiset{x}
  {
    if |s| == 0 || s[|s| - 1].score >= x.score {
      ElementsSnoc(s, x);
    } else {
      var front, last := s[..|s| - 1], s[|s| - 1];
      InsertKeepsElements(front, x);
      assert s == front + [last];
      ElementsSnoc(front, last);
      ElementsSnoc(Insert(front, x), last);
    }
  }

  lemma {:induction false} InsertKeepsTotal<T>(s: seq<Scored<T>>, x: Scored<T>)
    ensures |Insert(s, x)| == |s| + 1
    ensures Total(Insert(s, x)) == Total(s) + x.score
  {
    if |s| == 0 || s[|s| - 1].score >= x.score {
      WithScoreSnoc(s, x, 0.0);
    } else {
      var front, last := s[..|s| - 1], s[|s| - 1];
      InsertKeepsTotal(front, x);
      WithScoreSnoc(Insert(front, x), last, 0.0);
    }
  }

  lemma {:induction false} InsertSorts<T>(s: seq<Scored<T>>, x: Scored<T>)
    requires Descending(s)
    ensures Descending(Insert(s, x))
    ensures forall i :: 0 <= i < |Insert(s, x)| ==> Insert(s, x)[i] in s || Insert(s, x)[i] == x
  {
    if |s| > 0 && s[|s| - 1].score < x.score {
      InsertSorts(s[..|s| - 1], x);
    }
  }

  lemma {:induction false} InsertIsStable<T>(s: seq<Scored<T>>, x: Scored<T>, v: real)
    requires Descending(s)
    ensures WithScore(Insert(s, x), v) == WithScore(s, v) + if x.score == v then [x] else []
  {
    if |s| == 0 || s[|s| - 1].score >= x.score {
      WithScoreSnoc(s, x, v);
    } else {
      var front, last := s[..|s| - 1], s[|s| - 1];
      InsertIsStable(front, x, v);
      WithScoreSnoc(Insert(front, x), last, v);
      if last.score == v {
        assert x.score != v;
      }
    }
  }

  lemma {:induction false} SortKeepsElements<T>(s: seq<Scored<T>>)
    ensures multiset(SortDescending(s)) == multiset(s)
  {
    if |s| > 0 {
      var front, last := s[..|s| - 1], s[|s| - 1];
      SortKeepsElements(front);
      InsertKeepsElements(SortDescending(front), last);
      ElementsSnoc(front, last);
      assert s == front + [last];
    }
  }

  lemma ElementsSnoc<T>(front: seq<T>, last: T)
    ensures multiset(front + [last]) == multiset(front) + multiset{last}
  { }

  lemma {:induction false} SortKeepsSize<T>(s: seq<Scored<T>>)
    ensures |SortDescending(s)| == |s| && Total(SortDescending(s)) == Total(s)
  {
    if |s| > 0 {
      SortKeepsSize(s[..|s| - 1]);
      InsertKeepsTotal(SortDescending(s[..|s| - 1]), s[|s| - 1]);
    }
  }

  lemma {:induction false} SortSorts<T>(s: seq<Scored<T>>)
    ensures Descending(SortDescending(s))
  {
    if |s| > 0 {
      SortSorts(s[..|s| - 1]);
      InsertSorts(SortDescending(s[..|s| - 1]), s[|s| - 1]);
    }
  }

  /** A descending permutation with the same total score. */
  lemma SortDescendingSorts<T>(s: seq<Scored<T>>)
    ensures Descending(SortDescending(s))
    ensures multiset(SortDescending(s)) == multiset(s)
    ensures |SortDescending(s)| == |s|
    ensures Total(SortDescending(s)) == Total(s)
  {
    SortKeepsElements(s);
    SortKeepsSize(s);
    SortSorts(s);
  }

  lemma {:induction false} SortDescendingIsStable<T>(s: seq<Scored<T>>, v: real)
    ensures WithScore(SortDescending(s), v) == WithScore(s, v)
  {
    if |s| > 0 {
      var front := s[..|s| - 1];
      SortDescendingIsStable(front, v);
      SortDescendingSorts(front);
      InsertIsStable(SortDescending(front), s[|s| - 1], v);
    }
  }

  /** Descending order and stability leave no choice: together they determine the result. */
  lemma {:induction false} StableSortIsUnique<T>(a: seq<Scored<T>>, b: seq<Scored<T>>)
    requires Descending(a) && Descending(b)
    requires forall v: real :: WithScore(a, v) == WithScore(b, v)
    ensures a == b
    decreases |a|
  {
    if |a| == 0 {
      if |b| > 0 {
        assert WithScore(b, b[|b| - 1].score) == WithScore(a, b[|b| - 1].score);
      }
    } else {
      var n := a[|a| - 1];
      assert WithScore(a, n.score) == WithScore(b, n.score);
      LastIsLast(a, b);
      LastIsLast(b, a);
      var m := b[|b| - 1];
      assert n.score == m.score;
      assert WithScore(a, n.score)[|WithScore(a, n.score)| - 1] == n;
      assert WithScore(b, n.score)[|WithScore(b, n.score)| - 1] == m;
      var a', b' := a[..|a| - 1], b[..|b| - 1];
      forall v: real ensures WithScore(a', v) == WithScore(b', v) {
        assert WithScore(a, v) == WithScore(b, v);
        assert WithScore(a', v) == WithScore(a, v)[..|WithScore(a', v)|];
        assert WithScore(b', v) == WithScore(b, v)[..|WithScore(b', v)|];
      }
      StableSortIsUnique(a', b');
    }
  }

  lemma LastIsLast<T>(a: seq<Scored<T>>, b: seq<Scored<T>>)
    requires Descending(b) && |a| > 0
    requires WithScore(a, a[|a| - 1].score) == WithScore(b, a[|a| - 1].score)
    ensures |b| > 0 && b[|b| - 1].score <= a[|a| - 1].score
  {
    var v := a[|a| - 1].score;
    if |b| == 0 || b[|b| - 1].score > v {
      NoneWithScore(b, v);
    }
  }

  /** Nothing moves in a sequence that is already descending. */
  lemma {:induction false} SortedStays<T>(s: seq<Scored<T>>)
    requires Descending(s)
    ensures SortDescending(s) == s
  {
    if |s| > 0 {
      var front := s[..|s| - 1];
      SortedStays(front);
      assert |front| > 0 ==> front[|front| - 1] == s[|s| - 2];
      assert s == front + [s[|s| - 1]];
    }
  }
}
