/** The browser's cache of similar books. */
module LruCache {
  import opened Basics

  // An insertion-ordered map in which every access moves its entry to the end, against the log of accesses that it
  // summarises.

  const MAX_CACHE_SIZE := 100

  datatype Book = Book(id: string, details: string)

  /** An insertion, or a lookup that found its entry. */
  datatype Access = Stored(book: Book) | Touched(found: string)

  function IdOf(a: Access): string {
    match a
    case Stored(b) => b.id
    case Touched(id) => id
  }

  function Without(ids: seq<string>, id: string): seq<string> {
    if |ids| == 0 then []
    else Without(ids[..|ids| - 1], id) + if ids[|ids| - 1] == id then [] else [ids[|ids| - 1]]
  }

  /** All ids ever accessed, each once, ordered by last access. */
  function Recency(log: seq<Access>): seq<string> {
    if |log| == 0 then []
    else
      var id := IdOf(log[|log| - 1]);
      Without(Recency(log[..|log| - 1]), id) + [id]
  }

  function Newest(ids: seq<string>, n: nat): seq<string> {
    if |ids| <= n then ids else ids[|ids| - n..]
  }

  /** The book inserted last under this id. */
  function Latest(log: seq<Access>, id: string): Option<Book> {
    if |log| == 0 then None
    else
      var a := log[|log| - 1];
      if a.Stored? && a.book.id == id then Some(a.book) else Latest(log[..|log| - 1], id)
  }

  // ---------------------------------------------------------------------------------------------

  lemma {:induction false} WithoutRemoves(ids: seq<string>, id: string)
    ensures forall x :: x in Without(ids, id) <==> x in ids && x != id
    ensures Distinct(ids) ==> Distinct(Without(ids, id))
  {
    if |ids| > 0 {
      var front, last := ids[..|ids| - 1], ids[|ids| - 1];
      assert ids == front + [last];
      WithoutRemoves(front, id);
      if Distinct(ids) {
        assert last !in front;
      }
    }
  }

  lemma {:induction false} WithoutAbsent(ids: seq<string>, id: string)
    requires id !in ids
    ensures Without(ids, id) == ids
  {
    if |ids| > 0 {
      WithoutAbsent(ids[..|ids| - 1], id);
    }
  }

  lemma {:induction false} WithoutSize(ids: seq<string>, id: string)
    requires Distinct(ids)
    ensures |Without(ids, id)| == if id in ids then |ids| - 1 else |ids|
  {
    if |ids| > 0 {
      var front, last := ids[..|ids| - 1], ids[|ids| - 1];
      assert ids == front + [last];
      if last == id {
        assert id !in front;
        WithoutAbsent(front, id);
      } else {
        WithoutSize(front, id);
      }
    }
  }

  lemma {:induction false} WithoutConcat(a: seq<string>, b: seq<string>, id: string)
    ensures Without(a + b, id) == Without(a, id) + Without(b, id)
  {
    if |b| == 0 {
      assert a + b == a;
    } else {
      var n := |b| - 1;
      assert (a + b)[..|a + b| - 1] == a + b[..n];
      WithoutConcat(a, b[..n], id);
    }
  }

  lemma {:induction false} RecencyDistinct(log: seq<Access>)
    ensures Distinct(Recency(log))
  {
    if |log| > 0 {
      var before, id := Recency(log[..|log| - 1]), IdOf(log[|log| - 1]);
      RecencyDistinct(log[..|log| - 1]);
      WithoutRemoves(before, id);
      assert id !in Without(before, id);
    }
  }

  /** Moving an id to the end and keeping the newest `n` commute: what was dropped before cannot
      matter, because an id that is not among the newest is not in the cache either. */
  lemma AccessKeepsTheNewest(ids: seq<string>, id: string, n: nat)
    requires Distinct(ids) && n >= 1
    ensures Newest(Without(ids, id) + [id], n) == Newest(Without(Newest(ids, n), id) + [id], n)
  {
    if |ids| > n {
      var older, kept := ids[..|ids| - n], ids[|ids| - n..];
      assert ids == older + kept;
      WithoutConcat(older, kept, id);
      WithoutSize(kept, id);
      NewestOfSuffix(Without(older, id), Without(kept, id), id, n);
    }
  }

  lemma NewestOfSuffix(a: seq<string>, b: seq<string>, last: string, n: nat)
    requires |b| + 1 >= n
    ensures Newest(a + b + [last], n) == Newest(b + [last], n)
  {
    assert a + b + [last] == a + (b + [last]);
  }

  /** Evicting the first key of one too many leaves the newest. */
  lemma EvictionKeepsTheNewest(keys: seq<string>, n: nat)
    requires Distinct(keys) && |keys| == n + 1
    ensures Without(keys, keys[0]) == Newest(keys, n)
  {
    assert keys == [keys[0]] + keys[1..];
    WithoutConcat([keys[0]], keys[1..], keys[0]);
    assert [keys[0]][..0] == [];
    WithoutAbsent(keys[1..], keys[0]);
  }

  /** The ids accessed after the last access to `id`. */
  function Since(log: seq<Access>, id: string): set<string> {
    if |log| == 0 || IdOf(log[|log| - 1]) == id then {} else Since(log[..|log| - 1], id) + {IdOf(log[|log| - 1])}
  }

  /** After an access to `id` at `k` that is its last one, exactly the accesses beyond `k` are since. */
  lemma {:induction false} SinceIs(log: seq<Access>, id: string, k: nat, x: string)
    requires k < |log| && IdOf(log[k]) == id && forall i :: k < i < |log| ==> IdOf(log[i]) != id
    ensures x in Since(log, id) <==> exists i :: k < i < |log| && IdOf(log[i]) == x
  {
    var n := |log| - 1;
    if k < n {
      SinceIs(log[..n], id, k, x);
      if x in Since(log[..n], id) {
        var i :| k < i < n && IdOf(log[..n][i]) == x;
        assert IdOf(log[i]) == x;
      } else if exists i :: k < i < n && IdOf(log[i]) == x {
        var i :| k < i < n && IdOf(log[i]) == x;
        assert IdOf(log[..n][i]) == x;
      }
    }
  }

  /** The latest book of an id is the one of its last insertion, and there is none without an insertion. */
  lemma {:induction false} LatestIs(log: seq<Access>, id: string)
    ensures Latest(log, id).None? ==> forall b :: Stored(b) in log ==> b.id != id
    ensures forall b :: Latest(log, id) == Some(b) ==>
              exists k :: && 0 <= k < |log| && log[k] == Stored(b) && b.id == id
                          && forall i :: k < i < |log| && log[i].Stored? ==> log[i].book.id != id
  {
    if |log| > 0 {
      var n := |log| - 1;
      LatestIs(log[..n], id);
      assert log == log[..n] + [log[n]];
      if !(log[n].Stored? && log[n].book.id == id) {
        forall b | Latest(log, id) == Some(b)
          ensures exists k :: && 0 <= k < |log| && log[k] == Stored(b) && b.id == id
                              && forall i :: k < i < |log| && log[i].Stored? ==> log[i].book.id != id
        {
          var k :| && 0 <= k < n && log[..n][k] == Stored(b) && b.id == id
                   && forall i :: k < i < n && log[..n][i].Stored? ==> log[..n][i].book.id != id;
          assert log[k] == Stored(b);
          assert forall i :: k < i < n ==> log[i] == log[..n][i];
        }
      }
    }
  }

  predicate Accessed(log: seq<Access>, id: string) {
    exists i :: 0 <= i < |log| && IdOf(log[i]) == id
  }

  /** Behind an id in the recency order stand exactly the ids accessed since. */
  lemma {:induction false} BehindAreTheIdsSince(log: seq<Access>, id: string)
    returns (ahead: seq<string>, behind: seq<string>)
    requires Accessed(log, id)
    ensures Recency(log) == ahead + [id] + behind
    ensures forall x :: x in behind <==> x in Since(log, id)
  {
    var front, last := log[..|log| - 1], IdOf(log[|log| - 1]);
    if last == id {
      ahead, behind := Without(Recency(front), id), [];
    } else {
      var i :| 0 <= i < |log| && IdOf(log[i]) == id;
      assert IdOf(front[i]) == id;
      var a, b := BehindAreTheIdsSince(front, id);
      WithoutConcat(a + [id], b, last);
      WithoutConcat(a, [id], last);
      assert Without([id], last) == [id] by { assert [id][..0] == []; }
      WithoutRemoves(b, last);
      ahead, behind := Without(a, last), Without(b, last) + [last];
    }
  }

  lemma {:induction false} DistinctSize(ids: seq<string>, s: set<string>)
    requires Distinct(ids) && (forall x :: x in ids <==> x in s)
    ensures |ids| == |s|
  {
    if |ids| == 0 {
      assert s == {};
    } else {
      var front, last := ids[..|ids| - 1], ids[|ids| - 1];
      assert ids == front + [last];
      DistinctSize(front, s - {last});
    }
  }

  lemma {:induction false} RecencyIsWhatWasAccessed(log: seq<Access>, id: string)
    ensures id in Recency(log) <==> Accessed(log, id)
  {
    if |log| > 0 {
      var front, last := log[..|log| - 1], IdOf(log[|log| - 1]);
      RecencyIsWhatWasAccessed(front, id);
      WithoutRemoves(Recency(front), last);
      if Accessed(front, id) {
        var i :| 0 <= i < |front| && IdOf(front[i]) == id;
        assert IdOf(log[i]) == id;
      }
      if Accessed(log, id) && last != id {
        var i :| 0 <= i < |log| && IdOf(log[i]) == id;
        assert IdOf(front[i]) == id;
      }
      if last == id {
        assert IdOf(log[|log| - 1]) == id;
      }
    }
  }

  /** The policy, without any list: an id is among the newest `n` exactly when it has been accessed
      and fewer than `n` other ids have been accessed since. */
  lemma NewestExactlyWhenFewSince(log: seq<Access>, id: string, n: nat)
    ensures id in Newest(Recency(log), n) <==> Accessed(log, id) && |Since(log, id)| < n
  {
    var r := Recency(log);
    RecencyIsWhatWasAccessed(log, id);
    if Accessed(log, id) {
      var ahead, behind := BehindAreTheIdsSince(log, id);
      RecencyDistinct(log);
      assert Distinct(behind) by {
        forall i, j | 0 <= i < j < |behind| ensures behind[i] != behind[j] {
          assert r[|ahead| + 1 + i] == behind[i] && r[|ahead| + 1 + j] == behind[j];
        }
      }
      DistinctSize(behind, Since(log, id));
      NewestByPosition(r, ahead, id, behind, n);
    }
  }

  lemma NewestByPosition(r: seq<string>, ahead: seq<string>, id: string, behind: seq<string>, n: nat)
    requires r == ahead + [id] + behind && Distinct(r)
    ensures id in Newest(r, n) <==> |behind| < n
  {
    assert r[|ahead|] == id;
    if |behind| < n {
      if |r| > n {
        assert r[|r| - n..][|ahead| - (|r| - n)] == id;
      }
    } else {
      forall i | 0 <= i < |Newest(r, n)| ensures Newest(r, n)[i] != id {
        assert Newest(r, n)[i] == r[|r| - n + i];
      }
    }
  }

  lemma PlacedLast(recency: seq<string>, id: string)
    requires Distinct(recency)
    ensures var keys := Newest(recency, MAX_CACHE_SIZE);
            && Distinct(Without(keys, id) + [id]) && |Without(keys, id)| <= MAX_CACHE_SIZE
            && (forall x :: x in Without(keys, id) <==> x in keys && x != id)
            && Newest(Without(keys, id) + [id], MAX_CACHE_SIZE) == Newest(Without(recency, id) + [id], MAX_CACHE_SIZE)
  {
    AccessKeepsTheNewest(recency, id, MAX_CACHE_SIZE);
    WithoutRemoves(Newest(recency, MAX_CACHE_SIZE), id);
    WithoutSize(Newest(recency, MAX_CACHE_SIZE), id);
  }

  lemma PresentPlacedLast(keys: seq<string>, id: string)
    requires Distinct(keys) && |keys| <= MAX_CACHE_SIZE && id in keys
    ensures Newest(Without(keys, id) + [id], MAX_CACHE_SIZE) == Without(keys, id) + [id]
  {
    WithoutSize(keys, id);
  }

  // ---------------------------------------------------------------------------------------------

  /** What the cache holds after the accesses of `log`: the newest ids, each with its latest book. */
  ghost predicate Represents(keys: seq<string>, books: map<string, Book>, log: seq<Access>) {
    && keys == Newest(Recency(log), MAX_CACHE_SIZE)
    && (forall id :: id in keys <==> id in books)
    && (forall id :: id in books ==> Latest(log, id) == Some(books[id]))
  }

  lemma AccessSnoc(log: seq<Access>, a: Access)
    ensures Recency(log + [a]) == Without(Recency(log), IdOf(a)) + [IdOf(a)]
    ensures forall id :: Latest(log + [a], id) == if a.Stored? && a.book.id == id then Some(a.book) else Latest(log, id)
  {
    assert (log + [a])[..|log|] == log;
  }

  /** One access: `keys'` and `books'` hold `book` in the last place and otherwise what was there. */
  lemma AccessIsRepresented(keys: seq<string>, books: map<string, Book>, log: seq<Access>, a: Access, book: Book,
                            keys': seq<string>, books': map<string, Book>)
    requires Represents(keys, books, log)
    requires if a.Stored? then a.book == book else IdOf(a) in books && books[IdOf(a)] == book
    requires keys' == Newest(Without(keys, IdOf(a)) + [IdOf(a)], MAX_CACHE_SIZE)
    requires forall id :: id in keys' <==> id in books'
    requires forall id :: id in books' ==>
               if id == IdOf(a) then books'[id] == book else id in books && books'[id] == books[id]
    ensures Represents(keys', books', log + [a])
  {
    AccessSnoc(log, a);
    RecencyDistinct(log);
    AccessKeepsTheNewest(Recency(log), IdOf(a), MAX_CACHE_SIZE);
  }

  class SimilarBookCache {
    var keys: seq<string>
    var books: map<string, Book>
    ghost var log: seq<Access>

    /** Insertion order, contents and size are determined by the log. */
    ghost predicate Valid()
      reads this
    {
      Represents(keys, books, log)
    }

    constructor ()
      ensures Valid() && log == []
    {
      keys, books, log := [], map[], [];
    }

    /** `Map.delete` */
    method Delete(id: string)
      modifies this`keys, this`books
      ensures keys == Without(old(keys), id) && books == old(books) - {id}
    {
      keys := Without(keys, id);
      books := books - {id};
    }

    /** `Map.set` of an absent key appends it. */
    method Set(id: string, book: Book)
      requires id !in books
      modifies this`keys, this`books
      ensures keys == old(keys) + [id] && books == old(books)[id := book]
    {
      keys := keys + [id];
      books := books[id := book];
    }

    method GetCachedSimilarBook(bookId: string) returns (r: Option<Book>)
      requires Valid()
      modifies this
      ensures Valid()
      ensures r.Some? <==> Accessed(old(log), bookId) && |Since(old(log), bookId)| < MAX_CACHE_SIZE
      ensures r.Some? ==> r == Latest(old(log), bookId) && log == old(log) + [Touched(bookId)]
      ensures r.Some? ==> |Since(old(log), bookId)| < 100
      ensures r.None? ==> !Accessed(old(log), bookId) || |Since(old(log), bookId)| >= 100
      ensures r.None? ==> log == old(log) && keys == old(keys)
    {
      NewestExactlyWhenFewSince(log, bookId, MAX_CACHE_SIZE);
      if bookId !in books {
        return None;
      }
      var book := books[bookId];
      Refresh(bookId, book);
      return Some(book);
    }

    /** Moves a present entry to the most recently used position. */
    method Refresh(bookId: string, book: Book)
      requires Valid() && bookId in books && books[bookId] == book
      modifies this
      ensures Valid() && log == old(log) + [Touched(bookId)]
    {
      RecencyDistinct(log);
      PlacedLast(Recency(log), bookId);
      PresentPlacedLast(keys, bookId);
      Delete(bookId);
      Set(bookId, book);
      AccessIsRepresented(old(keys), old(books), log, Touched(bookId), book, keys, books);
      log := log + [Touched(bookId)];
    }

    method CacheSimilarBooks(added: seq<Book>)
      requires Valid()
      modifies this
      ensures Valid() && log == old(log) + seq(|added|, i requires 0 <= i < |added| => Stored(added[i]))
      ensures |keys| <= 100
    {
      for i := 0 to |added|
        invariant Valid() && log == old(log) + seq(i, j requires 0 <= j < i && i <= |added| => Stored(added[j]))
      {
        CacheOne(added[i]);
      }
    }

    method CacheOne(book: Book)
      requires Valid()
      modifies this
      ensures Valid() && log == old(log) + [Stored(book)]
    {
      RecencyDistinct(log);
      PlacedLast(Recency(log), book.id);
      Delete(book.id);
      Set(book.id, book);
      EvictOldest();
      AccessIsRepresented(old(keys), old(books), log, Stored(book), book, keys, books);
      log := log + [Stored(book)];
    }

    method EvictOldest()
      requires Distinct(keys) && |keys| <= MAX_CACHE_SIZE + 1
      requires forall id :: id in keys <==> id in books
      modifies this`keys, this`books
      ensures keys == Newest(old(keys), MAX_CACHE_SIZE)
      ensures forall id :: id in keys <==> id in books
      ensures forall id :: id in books ==> id in old(books) && books[id] == old(books)[id]
    {
      if |keys| > MAX_CACHE_SIZE {
        var lruKey := keys[0];
        EvictionKeepsTheNewest(keys, MAX_CACHE_SIZE);
        WithoutRemoves(keys, lruKey);
        Delete(lruKey);
      }
    }
  }
}
