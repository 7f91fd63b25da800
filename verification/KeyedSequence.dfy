/** Sequences merged by a key, as a dictionary does it. */
module KeyedSequence {
  import opened Basics

  // The first occurrence of a key fixes its place, the last one its entry.

  function Ids<T>(id: T -> string, s: seq<T>): (ids: seq<string>)
    ensures |ids| == |s| && forall i :: 0 <= i < |s| ==> ids[i] == id(s[i])
  {
    seq(|s|, i requires 0 <= i < |s| => id(s[i]))
  }

  /** The last entry with key `x`. */
  function Last<T>(id: T -> string, s: seq<T>, x: string): (e: T)
    requires x in Ids(id, s)
    ensures e in s && id(e) == x
  {
    var n := |s| - 1;
    if id(s[n]) == x then s[n]
    else
      IdsSnoc(id, s[..n], s[n]);
      assert s == s[..n] + [s[n]];
      Last(id, s[..n], x)
  }

  lemma IdsSnoc<T>(id: T -> string, s: seq<T>, e: T)
    ensures Ids(id, s + [e]) == Ids(id, s) + [id(e)]
  { }

  lemma IdsAppend<T>(id: T -> string, a: seq<T>, b: seq<T>)
    ensures Ids(id, a + b) == Ids(id, a) + Ids(id, b)
  { }

  function Dedup<T>(id: T -> string, s: seq<T>): (r: seq<T>)
    ensures Ids(id, r) == Firsts(Ids(id, s))
  {
    var order := Firsts(Ids(id, s));
    seq(|order|, i requires 0 <= i < |order| => assert order[i] in order; Last(id, s, order[i]))
  }

  /** The order is that of first occurrence: the earlier of two keys occurs before the later one does. */
  lemma {:induction false} FirstsAreInOrder(ids: seq<string>, i: nat, j: nat) returns (p: nat)
    requires i < j < |Firsts(ids)|
    ensures p < |ids| && ids[p] == Firsts(ids)[i] && Firsts(ids)[j] !in ids[..p + 1]
  {
    var front, x := ids[..|ids| - 1], ids[|ids| - 1];
    assert ids == front + [x];
    if j < |Firsts(front)| {
      p := FirstsAreInOrder(front, i, j);
      assert ids[..p + 1] == front[..p + 1];
    } else {
      assert Firsts(ids)[i] in front;
      p :| 0 <= p < |front| && front[p] == Firsts(ids)[i];
      assert ids[..p + 1] == front[..p + 1];
      assert forall e :: e in front[..p + 1] ==> e in front;
    }
  }

  // ---------------------------------------------------------------------------------------------

  function Without(s: seq<string>, x: seq<string>): seq<string> {
    if |s| == 0 then []
    else Without(s[..|s| - 1], x) + (if s[|s| - 1] in x then [] else [s[|s| - 1]])
  }

  lemma {:induction false} WithoutSame(s: seq<string>, x: seq<string>, y: seq<string>)
    requires forall e :: e in x <==> e in y
    ensures Without(s, x) == Without(s, y)
  {
    if |s| > 0 {
      WithoutSame(s[..|s| - 1], x, y);
    }
  }

  lemma {:induction false} WithoutAll(s: seq<string>, x: seq<string>)
    requires forall e :: e in s ==> e in x
    ensures Without(s, x) == []
  {
    if |s| > 0 {
      assert s[|s| - 1] in s && forall e :: e in s[..|s| - 1] ==> e in s;
      WithoutAll(s[..|s| - 1], x);
    }
  }

  lemma {:induction false} FirstsAppend(x: seq<string>, y: seq<string>)
    ensures Firsts(x + y) == Firsts(x) + Without(Firsts(y), x)
  {
    if |y| == 0 {
      assert x + y == x;
    } else {
      var front, e := y[..|y| - 1], y[|y| - 1];
      assert y == front + [e] && (x + y)[..|x + y| - 1] == x + front;
      FirstsAppend(x, front);
      if e !in front {
        assert (Firsts(front) + [e])[..|Firsts(front)|] == Firsts(front);
      }
    }
  }

  lemma FirstsOfFirsts(x: seq<string>, y: seq<string>)
    ensures Firsts(Firsts(x) + y) == Firsts(x + y) == Firsts(x + Firsts(y))
  {
    FirstsAppend(x, y);
    FirstsAppend(Firsts(x), y);
    FirstsAppend(x, Firsts(y));
    FirstsOfDistinct(Firsts(x));
    FirstsOfDistinct(Firsts(y));
    WithoutSame(Firsts(y), x, Firsts(x));
  }

  lemma {:induction false} LastAppend<T>(id: T -> string, a: seq<T>, b: seq<T>, x: string)
    requires x in Ids(id, a + b)
    ensures x in Ids(id, b) ==> Last(id, a + b, x) == Last(id, b, x)
    ensures x !in Ids(id, b) ==> x in Ids(id, a) && Last(id, a + b, x) == Last(id, a, x)
  {
    IdsAppend(id, a, b);
    if |b| == 0 {
      assert a + b == a;
    } else {
      var front, e := b[..|b| - 1], b[|b| - 1];
      assert b == front + [e] && (a + b)[..|a + b| - 1] == a + front;
      IdsSnoc(id, front, e);
      IdsSnoc(id, a + front, e);
      assert a + b == a + front + [e];
      if id(e) != x {
        LastAppend(id, a, front, x);
      }
    }
  }

  lemma {:induction false} LastOfDistinct<T>(id: T -> string, s: seq<T>, i: nat)
    requires Distinct(Ids(id, s)) && i < |s|
    ensures id(s[i]) in Ids(id, s) && Last(id, s, id(s[i])) == s[i]
  {
    assert Ids(id, s)[i] == id(s[i]);
    var e := Last(id, s, id(s[i]));
    var j :| 0 <= j < |s| && s[j] == e;
    assert Ids(id, s)[j] == Ids(id, s)[i];
  }

  lemma LastOfDedup<T>(id: T -> string, s: seq<T>, x: string)
    requires x in Ids(id, s)
    ensures x in Ids(id, Dedup(id, s)) && Last(id, Dedup(id, s), x) == Last(id, s, x)
  {
    var order := Firsts(Ids(id, s));
    var i :| 0 <= i < |order| && order[i] == x;
    LastOfDistinct(id, Dedup(id, s), i);
  }

  lemma SameDedup<T>(id: T -> string, s: seq<T>, t: seq<T>)
    requires Firsts(Ids(id, s)) == Firsts(Ids(id, t))
    requires forall x :: x in Ids(id, s) && x in Ids(id, t) ==> Last(id, s, x) == Last(id, t, x)
    ensures Dedup(id, s) == Dedup(id, t)
  {
    var order := Firsts(Ids(id, s));
    forall i | 0 <= i < |order| ensures Dedup(id, s)[i] == Dedup(id, t)[i] {
      assert order[i] in order;
    }
  }

  /** Removing repeats early makes no difference. */
  lemma DedupEarly<T>(id: T -> string, a: seq<T>, b: seq<T>)
    ensures Dedup(id, Dedup(id, a) + b) == Dedup(id, a + b) == Dedup(id, a + Dedup(id, b))
  {
    var da, db := Dedup(id, a), Dedup(id, b);
    IdsAppend(id, a, b);
    IdsAppend(id, da, b);
    IdsAppend(id, a, db);
    FirstsOfFirsts(Ids(id, a), Ids(id, b));
    forall x | x in Ids(id, a + b)
      ensures Last(id, da + b, x) == Last(id, a + b, x) == Last(id, a + db, x)
    {
      LastAppend(id, a, b, x);
      LastAppend(id, da, b, x);
      LastAppend(id, a, db, x);
      if x in Ids(id, b) { LastOfDedup(id, b, x); } else { LastOfDedup(id, a, x); }
    }
    SameDedup(id, da + b, a + b);
    SameDedup(id, a + b, a + db);
  }

  /** Merging is associative. */
  lemma MergingIsAssociative<T>(id: T -> string, a: seq<T>, b: seq<T>, c: seq<T>)
    ensures Dedup(id, Dedup(id, a + b) + c) == Dedup(id, a + Dedup(id, b + c))
  {
    assert (a + b) + c == a + (b + c);
    assert Dedup(id, Dedup(id, a + b) + c) == Dedup(id, (a + b) + c) by { DedupEarly(id, a + b, c); }
    assert Dedup(id, a + Dedup(id, b + c)) == Dedup(id, a + (b + c)) by { DedupEarly(id, a, b + c); }
  }

  /** Merging the same sequence a second time changes nothing. */
  lemma MergingAbsorbsRepeats<T>(id: T -> string, a: seq<T>, b: seq<T>)
    ensures Dedup(id, Dedup(id, a + b) + b) == Dedup(id, a + b)
  {
    DedupEarly(id, a + b, b);
    IdsAppend(id, a, b);
    IdsAppend(id, a + b, b);
    FirstsAppend(Ids(id, a + b), Ids(id, b));
    WithoutAll(Firsts(Ids(id, b)), Ids(id, a + b));
    forall x | x in Ids(id, a + b) ensures Last(id, a + b + b, x) == Last(id, a + b, x) {
      LastAppend(id, a, b, x);
      LastAppend(id, a + b, b, x);
    }
    SameDedup(id, a + b + b, a + b);
  }

  /** Merging a sequence with itself leaves it as it is exactly when no key occurs twice. */
  lemma SelfMergeExactlyWhen<T>(id: T -> string, s: seq<T>)
    ensures Dedup(id, s + s) == s <==> Distinct(Ids(id, s))
  {
    DedupTwice(id, s);
    if Distinct(Ids(id, s)) {
      DedupOfDistinct(id, s);
    }
  }

  /** Merging `s` into `t` gives `t` exactly when `t` names each key once, those of `s` first and in their order. */
  lemma AddsNothingExactlyWhen<T>(id: T -> string, s: seq<T>, t: seq<T>)
    ensures Dedup(id, s + t) == t <==> Firsts(Ids(id, s) + Ids(id, t)) == Ids(id, t)
  {
    IdsAppend(id, s, t);
    if Firsts(Ids(id, s) + Ids(id, t)) == Ids(id, t) {
      forall i | 0 <= i < |t| ensures Dedup(id, s + t)[i] == t[i] {
        LastOfDistinct(id, t, i);
        LastAppend(id, s, t, id(t[i]));
      }
    }
  }

  lemma DedupTwice<T>(id: T -> string, s: seq<T>)
    ensures Dedup(id, s + s) == Dedup(id, s)
  {
    assert [] + s == s;
    assert Dedup(id, Dedup(id, s) + s) == Dedup(id, s) by { MergingAbsorbsRepeats(id, [], s); }
    DedupEarly(id, s, s);
  }

  lemma DedupOfDistinct<T>(id: T -> string, s: seq<T>)
    requires Distinct(Ids(id, s))
    ensures Dedup(id, s) == s
  {
    FirstsOfDistinct(Ids(id, s));
    forall i | 0 <= i < |s| ensures Dedup(id, s)[i] == s[i] {
      LastOfDistinct(id, s, i);
    }
  }

  /** Any sequence with each key once, in order of first occurrence and with its last entry, is the merge. */
  lemma MergeIsUnique<T>(id: T -> string, s: seq<T>, r: seq<T>)
    requires Ids(id, r) == Firsts(Ids(id, s))
    requires forall e :: e in r ==> id(e) in Ids(id, s) && e == Last(id, s, id(e))
    ensures r == Dedup(id, s)
  {
    forall i | 0 <= i < |r| ensures r[i] == Dedup(id, s)[i] {
      assert r[i] in r && Ids(id, r)[i] == id(r[i]);
    }
  }

  // ---------------------------------------------------------------------------------------------

  /** A dictionary filled from `s`, entry by entry; `order` is the order of insertion of its keys. */
  ghost predicate Collected<T>(id: T -> string, s: seq<T>, order: seq<string>, entries: map<string, T>) {
    && order == Firsts(Ids(id, s))
    && (forall x :: x in entries <==> x in Ids(id, s))
    && forall x :: x in entries ==> x in Ids(id, s) && entries[x] == Last(id, s, x)
  }

  lemma LastSnoc<T>(id: T -> string, s: seq<T>, entry: T)
    ensures forall y :: y in Ids(id, s + [entry]) ==>
              && (y != id(entry) ==> y in Ids(id, s))
              && Last(id, s + [entry], y) == if y == id(entry) then entry else Last(id, s, y)
  {
    IdsSnoc(id, s, entry);
    forall y | y in Ids(id, s + [entry])
      ensures y != id(entry) ==> y in Ids(id, s)
      ensures Last(id, s + [entry], y) == if y == id(entry) then entry else Last(id, s, y)
    {
      assert (s + [entry])[..|s|] == s;
    }
  }

  lemma KeysMore<T>(id: T -> string, s: seq<T>, entry: T, entries: map<string, T>)
    requires forall x :: x in entries <==> x in Ids(id, s)
    ensures forall x :: x in entries[id(entry) := entry] <==> x in Ids(id, s + [entry])
  {
    IdsSnoc(id, s, entry);
    forall x ensures x in entries[id(entry) := entry] <==> x in Ids(id, s + [entry]) {
      assert x in Ids(id, s) + [id(entry)] <==> x in Ids(id, s) || x == id(entry);
    }
  }

  lemma EntriesMore<T>(id: T -> string, s: seq<T>, entry: T, entries: map<string, T>)
    requires forall x :: x in entries ==> x in Ids(id, s) && entries[x] == Last(id, s, x)
    ensures var entries' := entries[id(entry) := entry];
            forall x :: x in entries' ==> x in Ids(id, s + [entry]) && entries'[x] == Last(id, s + [entry], x)
  {
    IdsSnoc(id, s, entry);
    LastSnoc(id, s, entry);
  }

  lemma CollectedMore<T>(id: T -> string, s: seq<T>, entry: T, order: seq<string>, entries: map<string, T>)
    requires Collected(id, s, order, entries)
    ensures var x := id(entry);
            Collected(id, s + [entry], if x in entries then order else order + [x], entries[x := entry])
  {
    IdsSnoc(id, s, entry);
    FirstsSnoc(Ids(id, s), id(entry));
    KeysMore(id, s, entry, entries);
    EntriesMore(id, s, entry, entries);
  }

  lemma PrefixSnoc<T>(before: seq<T>, s: seq<T>, i: nat)
    requires i < |s|
    ensures before + s[..i + 1] == before + s[..i] + [s[i]]
  { }

  method PutAll<T>(id: T -> string, ghost before: seq<T>, s: seq<T>, order: seq<string>, entries: map<string, T>)
    returns (order': seq<string>, entries': map<string, T>)
    requires Collected(id, before, order, entries)
    ensures Collected(id, before + s, order', entries')
  {
    order', entries' := order, entries;
    assert before + s[..0] == before;
    for i := 0 to |s|
      invariant Collected(id, before + s[..i], order', entries')
    {
      PrefixSnoc(before, s, i);
      CollectedMore(id, before + s[..i], s[i], order', entries');
      var x := id(s[i]);
      if x !in entries' {
        order' := order' + [x];
      }
      entries' := entries'[x := s[i]];
    }
    assert s[..|s|] == s;
  }

  method Values<T>(id: T -> string, ghost s: seq<T>, order: seq<string>, entries: map<string, T>) returns (r: seq<T>)
    requires Collected(id, s, order, entries)
    ensures r == Dedup(id, s)
  {
    assert forall i :: 0 <= i < |order| ==> order[i] in order;
    r := seq(|order|, i requires 0 <= i < |order| => entries[order[i]]);
  }
}
