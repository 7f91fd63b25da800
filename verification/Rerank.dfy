/** The hybrid-rerank path: reranking, fusion, page slices. */
module Rerank {
  import opened Basics
  import opened StableSort
  import opened RankFusion
  import opened Vectors

  // Square roots are avoided: a similarity is represented by its signed square, `c * |c|` for a cosine `c`.  That keeps
  // sign, zero and order, hence every comparison the code makes.

  function Abs(x: real): real { if x < 0.0 then -x else x }

  /** Cosine similarity as a signed square; zero for vectors of different length or zero norm. */
  function Similarity(a: Vector, b: Vector): real {
    if |a| != |b| || SquaredNorm(a) == 0.0 || SquaredNorm(b) == 0.0 then 0.0
    else Dot(a, b) * Abs(Dot(a, b)) / (SquaredNorm(a) * SquaredNorm(b))
  }

  /** Signed squares are ordered as the cosines they stand for. */
  lemma SignedSquareKeepsOrder(x: real, y: real)
    ensures x < y <==> x * Abs(x) < y * Abs(y)
  {
    if 0.0 <= x && 0.0 <= y { SquareOrder(x, y); SquareOrder(y, x); }
    if x < 0.0 && y < 0.0 { SquareOrder(-x, -y); SquareOrder(-y, -x); }
    if x < 0.0 <= y { assert x * Abs(x) < 0.0 <= y * Abs(y); }
    if y < 0.0 <= x { assert y * Abs(y) < 0.0 <= x * Abs(x); }
  }

  /** Similarities lie between minus one and one. */
  lemma SimilarityIsACosine(a: Vector, b: Vector)
    ensures -1.0 <= Similarity(a, b) <= 1.0
  {
    if |a| == |b| && SquaredNorm(a) != 0.0 && SquaredNorm(b) != 0.0 {
      CauchySchwarz(a, b);
      SquaredNormNonNegative(a);
      SquaredNormNonNegative(b);
      var n, m := Dot(a, b) * Abs(Dot(a, b)), SquaredNorm(a) * SquaredNorm(b);
      assert m > 0.0;
      assert -m <= n <= m;
      RatioBound(n, m);
    }
  }

  lemma RatioBound(n: real, m: real)
    requires m > 0.0 && -m <= n <= m
    ensures -1.0 <= n / m <= 1.0
  { }

  /** `p` is the square root of the sum of squares. */
  predicate IsNorm(v: Vector, p: real) {
    p > 0.0 && p * p == Dot(v, v)
  }

  /** `c` is the cosine of the angle between the vectors, or zero where there is none. */
  ghost predicate IsCosine(a: Vector, b: Vector, c: real) {
    if |a| != |b| then c == 0.0
    else if Dot(a, a) == 0.0 || Dot(b, b) == 0.0 then c == 0.0
    else exists p, q :: IsNorm(a, p) && IsNorm(b, q) && c * (p * q) == Dot(a, b)
  }

  function SignedSquare(c: real): real {
    if c >= 0.0 then c * c else -(c * c)
  }

  /** A similarity is the square of the cosine, with the cosine's sign. */
  lemma SimilarityIsTheSignedSquare(a: Vector, b: Vector, c: real)
    requires IsCosine(a, b, c)
    ensures Similarity(a, b) == SignedSquare(c)
  {
    if |a| == |b| && Dot(a, a) != 0.0 && Dot(b, b) != 0.0 {
      var p, q :| IsNorm(a, p) && IsNorm(b, q) && c * (p * q) == Dot(a, b);
      SignedSquareOfRatio(Dot(a, b), c, p, q);
    }
  }

  lemma SignedSquareOfRatio(dot: real, c: real, p: real, q: real)
    requires p > 0.0 && q > 0.0 && c * (p * q) == dot
    ensures dot * Abs(dot) / ((p * p) * (q * q)) == SignedSquare(c)
  {
    var m := p * q;
    ProductPositive(p, q);
    assert (p * p) * (q * q) == m * m;
    ProductPositive(p * p, q * q);
    SignOfProduct(c, m);
    SignedProduct(c, m);
    RatioOf(dot * Abs(dot), (p * p) * (q * q), SignedSquare(c), m);
  }

  lemma RatioOf(x: real, d: real, s: real, m: real)
    requires m > 0.0 && d > 0.0 && d == m * m && x == s * (m * m)
    ensures x / d == s
  {
    CancelProduct(s, m, m);
  }

  lemma SignedProduct(c: real, m: real)
    requires c >= 0.0 ==> c * m >= 0.0
    requires c < 0.0 ==> c * m < 0.0
    ensures (c * m) * Abs(c * m) == SignedSquare(c) * (m * m)
  {
    assert (c * m) * (c * m) == (c * c) * (m * m);
  }

  lemma CancelProduct(x: real, m: real, n: real)
    requires m > 0.0 && n > 0.0
    ensures x * (m * n) / (m * n) == x
  {
    ProductPositive(m, n);
    Cancel(x, m * n);
  }

  lemma Cancel(x: real, y: real)
    requires y > 0.0
    ensures x * y / y == x
  { }

  lemma SignOfProduct(c: real, m: real)
    requires m > 0.0
    ensures c >= 0.0 ==> c * m >= 0.0
    ensures c < 0.0 ==> c * m < 0.0
  { }

  lemma SimilarityFrom(a: Vector, b: Vector, dot: real, n: real, m: real)
    requires |a| == |b| && dot == Dot(a, b) >= 0.0 && n == Dot(a, a) > 0.0 && m == Dot(b, b) > 0.0
    ensures Similarity(a, b) == dot * dot / (n * m)
  { }

  lemma RatioOfEquals(x: real, m: real, n: real)
    requires m > 0.0 && n > 0.0 && x == m * n
    ensures x / (m * n) == 1.0
  {
    ProductPositive(m, n);
  }

  /** A vector is most similar to itself. */
  lemma SimilarityToItself(a: Vector)
    requires Dot(a, a) > 0.0
    ensures Similarity(a, a) == 1.0
  {
    var n := Dot(a, a);
    SimilarityFrom(a, a, n, n, n);
    RatioOfEquals(n * n, n, n);
  }

  // ---------------------------------------------------------------------------------------------
  // The reranker
  // ---------------------------------------------------------------------------------------------

  datatype Candidate = Candidate(id: string, vector: Vector)

  function Scores(query: Vector, docs: seq<Candidate>): seq<Scored<string>> {
    seq(|docs|, i requires 0 <= i < |docs| => Scored(docs[i].id, Similarity(query, docs[i].vector)))
  }

  /** Both branches of the code, including the early return for a zero query, are one stable sort by
      similarity. */
  method CosineRerank(query: Vector, docs: seq<Candidate>) returns (r: seq<Scored<string>>)
    ensures r == SortDescending(Scores(query, docs))
  {
    var queryNorm := SquaredNorm(query);
    if queryNorm == 0.0 {
      r := seq(|docs|, i requires 0 <= i < |docs| => Scored(docs[i].id, 0.0));
      assert r == Scores(query, docs);
      SortedStays(r);
      return;
    }
    var scored: seq<Scored<string>> := [];
    for i := 0 to |docs|
      invariant scored == Scores(query, docs)[..i]
    {
      var doc := docs[i];
      assert Scores(query, docs)[i] == Scored(doc.id, Similarity(query, doc.vector));
      assert Scores(query, docs)[..i + 1] == Scores(query, docs)[..i] + [Scores(query, docs)[i]];
      if |doc.vector| != |query| {
        scored := scored + [Scored(doc.id, 0.0)];
        continue;
      }
      var docNorm := SquaredNorm(doc.vector);
      if docNorm == 0.0 {
        scored := scored + [Scored(doc.id, 0.0)];
        continue;
      }
      var dot := Dot(query, doc.vector);
      assert Similarity(query, doc.vector) == dot * Abs(dot) / (queryNorm * docNorm);
      scored := scored + [Scored(doc.id, dot * Abs(dot) / (queryNorm * docNorm))];
    }
    assert Scores(query, docs)[..|docs|] == Scores(query, docs);
    r := SortDescending(scored);
  }

  // ---------------------------------------------------------------------------------------------
  // The search path
  // ---------------------------------------------------------------------------------------------

  const RERANK_CANDIDATE_LIMIT := 200

  function CandidateLimit(pageSize: int): int {
    Min(RERANK_CANDIDATE_LIMIT, Max(pageSize * 10, 50))
  }

  /** The keyword results that have a vector, in keyword order. */
  function Candidates(keyword: seq<Doc>, vectors: map<string, Vector>): seq<Candidate> {
    if |keyword| == 0 then []
    else
      var d := keyword[|keyword| - 1];
      Candidates(keyword[..|keyword| - 1], vectors) + if d.id in vectors then [Candidate(d.id, vectors[d.id])] else []
  }

  function ByIds(keyword: seq<Doc>, ranked: seq<Scored<string>>): seq<Doc> {
    if |ranked| == 0 then []
    else
      var id := ranked[|ranked| - 1].item;
      ByIds(keyword, ranked[..|ranked| - 1]) + if id in Ids(keyword) then [Shown(keyword, [], id)] else []
  }

  /** The semantic list: candidates reordered by similarity to the query. */
  function SemanticResults(keyword: seq<Doc>, vectors: map<string, Vector>, query: Vector): seq<Doc> {
    ByIds(keyword, SortDescending(Scores(query, Candidates(keyword, vectors))))
  }

  ghost function Ranking(k: int, keyword: seq<Doc>, vectors: map<string, Vector>, query: Vector): seq<Fused>
    requires k >= 0
  {
    FusedList(k, keyword, SemanticResults(keyword, vectors, query))
  }

  /** Python's `s[(page - 1) * size : (page - 1) * size + size]`. */
  function PageOf<T>(s: seq<T>, page: int, size: int): seq<T>
    requires page >= 1 && size >= 1
  {
    PageStart(page, size);
    var start := Min((page - 1) * size, |s|);
    s[start..Min(start + size, |s|)]
  }

  lemma PageStart(page: int, size: int)
    requires page >= 1 && size >= 1
    ensures (page - 1) * size >= 0
  { }

  /** `math.ceil(total / size) if total else 0` */
  function TotalPages(total: int, size: int): int
    requires size >= 1
  {
    if total == 0 then 0 else (total + size - 1) / size
  }

  datatype Response = Response(results: seq<Fused>, total: int, totalPages: int, degraded: bool)

  function Unranked(docs: seq<Doc>): seq<Fused> {
    seq(|docs|, i requires 0 <= i < |docs| => Fused(docs[i], 0.0))
  }

  /** The keyword results in the order of their rerank scores. */
  method SemanticLike(keyword: seq<Doc>, reranked: seq<Scored<string>>) returns (semantic: seq<Doc>)
    ensures semantic == ByIds(keyword, reranked)
  {
    var resultMap := ResultMap(keyword, []);
    semantic := [];
    for i := 0 to |reranked|
      invariant semantic == ByIds(keyword, reranked[..i])
    {
      assert reranked[..i + 1][..i] == reranked[..i];
      if reranked[i].item in resultMap {
        semantic := semantic + [resultMap[reranked[i].item]];
      }
    }
    assert reranked[..|reranked|] == reranked;
  }

  /** From the keyword results on.  `numFound` is Solr's total; scores of the fallback are not modelled. */
  method SearchHybridRerank(keyword: seq<Doc>, numFound: nat, vectors: map<string, Vector>, query: Vector,
                            k: int, page: int, pageSize: int) returns (r: Response)
    requires k >= 0 && page >= 1 && pageSize >= 1
    ensures |keyword| == 0 ==> r == Response([], 0, 0, false)
    ensures |keyword| > 0 && |Candidates(keyword, vectors)| == 0 ==>
              r == Response(Unranked(keyword[..Min(pageSize, |keyword|)]), numFound, TotalPages(numFound, pageSize),
                            true)
    ensures |Candidates(keyword, vectors)| > 0 ==>
              && r.results == PageOf(Ranking(k, keyword, vectors, query), page, pageSize)
              && r.total == Min(numFound, CandidateLimit(pageSize)) && r.totalPages == TotalPages(r.total, pageSize)
              && !r.degraded
  {
    if |keyword| == 0 {
      return Response([], 0, 0, false);
    }
    var docVectors := Candidates(keyword, vectors);
    if |docVectors| == 0 {
      return Response(Unranked(keyword[..Min(pageSize, |keyword|)]), numFound, TotalPages(numFound, pageSize), true);
    }
    var reranked := CosineRerank(query, docVectors);
    var semantic := SemanticLike(keyword, reranked);
    var fused := ReciprocalRankFusion(keyword, semantic, k);
    var rerankTotal := Min(numFound, CandidateLimit(pageSize));
    PageStart(page, pageSize);
    var start := (page - 1) * pageSize;
    var pageResults := if start >= |fused| then [] else fused[start..Min(start + pageSize, |fused|)];
    r := Response(pageResults, rerankTotal, TotalPages(rerankTotal, pageSize), false);
  }

  // ---------------------------------------------------------------------------------------------
  // What a user who walks through all pages sees
  // ---------------------------------------------------------------------------------------------

  lemma {:induction false} SemanticIdsAreKeywordIds(keyword: seq<Doc>, ranked: seq<Scored<string>>, id: string)
    requires id in Ids(ByIds(keyword, ranked))
    ensures id in Ids(keyword)
  {
    var front := ByIds(keyword, ranked[..|ranked| - 1]);
    var last := ranked[|ranked| - 1].item;
    var shown := if last in Ids(keyword) then [Shown(keyword, [], last)] else [];
    assert ByIds(keyword, ranked) == front + shown;
    assert Ids(front + shown) == Ids(front) + Ids(shown);
    if id in Ids(front) {
      SemanticIdsAreKeywordIds(keyword, ranked[..|ranked| - 1], id);
    }
  }

  function FusedIds(list: seq<Fused>): seq<string> {
    seq(|list|, i requires 0 <= i < |list| => list[i].doc.id)
  }

  lemma SameMembersSameMultiset(a: seq<string>, b: seq<string>)
    requires Distinct(a) && Distinct(b)
    requires forall x :: x in a <==> x in b
    ensures multiset(a) == multiset(b)
  {
    DistinctByCount(a);
    DistinctByCount(b);
    forall x ensures multiset(a)[x] == multiset(b)[x] {
      assert x in a <==> x in multiset(a);
      assert x in b <==> x in multiset(b);
    }
  }

  /** Reranking reorders the keyword results; it neither drops nor adds nor repeats any. */
  lemma RankingPermutesTheKeywordResults(k: int, keyword: seq<Doc>, vectors: map<string, Vector>, query: Vector)
    requires k >= 0 && DistinctIds(keyword)
    ensures multiset(FusedIds(Ranking(k, keyword, vectors, query))) == multiset(Ids(keyword))
    ensures |Ranking(k, keyword, vectors, query)| == |keyword|
  {
    var semantic, list := SemanticResults(keyword, vectors, query), Ranking(k, keyword, vectors, query);
    var ranked := Ranked(k, keyword, semantic);
    RankedIds(k, keyword, semantic);
    assert FusedIds(list) == RankedItems(ranked) by {
      forall i | 0 <= i < |ranked| ensures FusedIds(list)[i] == ranked[i].item {
        assert ranked[i].item == RankedItems(ranked)[i];
      }
    }
    forall id | id in Ids(semantic) ensures id in Ids(keyword) {
      SemanticIdsAreKeywordIds(keyword, SortDescending(Scores(query, Candidates(keyword, vectors))), id);
    }
    SameMembersSameMultiset(RankedItems(ranked), Ids(keyword));
    assert |multiset(FusedIds(list))| == |list| && |multiset(Ids(keyword))| == |keyword|;
  }

  /** Pages 1 to `n`, one after the other. */
  function AllPages<T>(s: seq<T>, size: int, n: nat): seq<T>
    requires size >= 1
  {
    if n == 0 then [] else AllPages(s, size, n - 1) + PageOf(s, n, size)
  }

  lemma {:induction false} PagesArePrefix<T>(s: seq<T>, size: int, n: nat)
    requires size >= 1
    ensures n * size >= 0 && AllPages(s, size, n) == s[..Min(n * size, |s|)]
  {
    if n > 0 {
      PagesArePrefix(s, size, n - 1);
      assert n * size == (n - 1) * size + size;
      PageExtends(s, (n - 1) * size, size);
    }
  }

  lemma PageExtends<T>(s: seq<T>, start: int, size: int)
    requires start >= 0 && size >= 1
    ensures var from := Min(start, |s|);
            s[..from] + s[from..Min(from + size, |s|)] == s[..Min(start + size, |s|)]
  { }

  lemma TotalPagesSuffice(total: int, size: int)
    requires total >= 0 && size >= 1
    ensures TotalPages(total, size) >= 0 && TotalPages(total, size) * size >= total
    ensures total > 0 ==> (TotalPages(total, size) - 1) * size < total
  {
    if total > 0 {
      var q := (total + size - 1) / size;
      assert q * size + (total + size - 1) % size == total + size - 1;
    }
  }

  /** Walking through the announced pages shows the whole list, once and in order, exactly when the
      announced pages have room for it. */
  lemma PagesShowAllExactlyWhen<T>(s: seq<T>, total: nat, size: int)
    requires size >= 1
    ensures TotalPages(total, size) >= 0
    ensures AllPages(s, size, TotalPages(total, size)) == s <==> |s| <= TotalPages(total, size) * size
  {
    TotalPagesSuffice(total, size);
    PagesArePrefix(s, size, TotalPages(total, size));
  }

  /** So it does on the rerank path: Solr returns as many candidates as the capped total announces. */
  lemma RerankPagesShowEveryCandidate(k: int, keyword: seq<Doc>, numFound: nat, vectors: map<string, Vector>,
                                      query: Vector, pageSize: int)
    requires k >= 0 && pageSize >= 1 && DistinctIds(keyword)
    requires |keyword| == Min(numFound, CandidateLimit(pageSize))
    ensures var n := TotalPages(Min(numFound, CandidateLimit(pageSize)), pageSize);
            n >= 0 && AllPages(Ranking(k, keyword, vectors, query), pageSize, n) == Ranking(k, keyword, vectors, query)
  {
    RankingPermutesTheKeywordResults(k, keyword, vectors, query);
    TotalPagesSuffice(|keyword|, pageSize);
    PagesShowAllExactlyWhen(Ranking(k, keyword, vectors, query), |keyword|, pageSize);
  }

  /** What the fallback without vectors shows: the same first page, whatever page is asked for. */
  function FallbackPages(keyword: seq<Doc>, size: int, n: nat): seq<Doc>
    requires size >= 1
  {
    if n == 0 then [] else FallbackPages(keyword, size, n - 1) + keyword[..Min(size, |keyword|)]
  }

  lemma {:induction false} FallbackStartsOver(keyword: seq<Doc>, size: int, n: nat)
    requires size >= 1 && |keyword| > 0 && n >= 2
    ensures var m := Min(size, |keyword|);
            && |FallbackPages(keyword, size, n)| > m
            && FallbackPages(keyword, size, n)[0] == keyword[0] == FallbackPages(keyword, size, n)[m]
  {
    if n == 2 {
      assert FallbackPages(keyword, size, 1) == keyword[..Min(size, |keyword|)];
    } else {
      FallbackStartsOver(keyword, size, n - 1);
    }
  }

  /** The fallback's pages show the keyword results exactly when one page holds them all. */
  lemma FallbackPagesShowAllExactlyWhen(keyword: seq<Doc>, numFound: nat, size: int)
    requires size >= 1 && DistinctIds(keyword) && |keyword| > 0
    requires |keyword| == Min(numFound, CandidateLimit(size))
    ensures TotalPages(numFound, size) >= 0
    ensures FallbackPages(keyword, size, TotalPages(numFound, size)) == keyword <==> numFound <= size
  {
    HowManyPages(numFound, size);
    if numFound <= size {
      OnePageIsAll(keyword, size);
    } else {
      ManyPagesRepeat(keyword, size, TotalPages(numFound, size));
    }
  }

  lemma HowManyPages(total: int, size: int)
    requires total >= 1 && size >= 1
    ensures if total <= size then TotalPages(total, size) == 1 else TotalPages(total, size) >= 2
  {
    TotalPagesSuffice(total, size);
    if total <= size {
      SinglePage(TotalPages(total, size), size, total);
    } else {
      ManyPages(TotalPages(total, size), size, total);
    }
  }

  lemma OnePageIsAll(keyword: seq<Doc>, size: int)
    requires size >= 1 && |keyword| <= size
    ensures FallbackPages(keyword, size, 1) == keyword
  {
    assert FallbackPages(keyword, size, 0) == [] && keyword[..|keyword|] == keyword;
  }

  lemma ManyPagesRepeat(keyword: seq<Doc>, size: int, n: nat)
    requires size >= 1 && DistinctIds(keyword) && |keyword| > 0 && n >= 2
    ensures FallbackPages(keyword, size, n) != keyword
  {
    FallbackStartsOver(keyword, size, n);
    if |keyword| > size {
      assert Ids(keyword)[0] != Ids(keyword)[size];
    }
  }

  lemma SinglePage(n: int, size: int, total: int)
    requires size >= 1 && 1 <= total <= size && n * size >= total && (n - 1) * size < total
    ensures n == 1
  {
    MulOrderInt(1, n - 1, size);
    MulOrderInt(n, 0, size);
  }

  lemma ManyPages(n: int, size: int, total: int)
    requires size >= 1 && total > size && n * size >= total
    ensures n >= 2
  {
    MulOrderInt(n, 1, size);
  }

  lemma MulOrderInt(a: int, b: int, c: int)
    requires c >= 0
    ensures a <= b ==> a * c <= b * c
  { }

  // ---------------------------------------------------------------------------------------------
  // Which book comes first
  // ---------------------------------------------------------------------------------------------

  predicate DistinctCandidates(docs: seq<Candidate>) {
    forall i, j :: 0 <= i < j < |docs| ==> docs[i].id != docs[j].id
  }

  lemma SignedSquareOrder(c: real, d: real)
    ensures c > d ==> SignedSquare(c) > SignedSquare(d)
  {
    SignedSquareKeepsOrder(d, c);
  }

  lemma ScoredFrom(query: Vector, docs: seq<Candidate>, x: nat, s: Scored<string>, c: real)
    requires DistinctCandidates(docs) && x < |docs| && s in SortDescending(Scores(query, docs)) && s.item == docs[x].id
    requires IsCosine(query, docs[x].vector, c)
    ensures s.score == SignedSquare(c)
  {
    SortedFrom(Scores(query, docs), s);
    var i :| 0 <= i < |docs| && Scores(query, docs)[i] == s;
    assert docs[i].id == docs[x].id;
    SimilarityIsTheSignedSquare(query, docs[x].vector, c);
  }

  lemma SortedFrom(scores: seq<Scored<string>>, s: Scored<string>)
    requires s in SortDescending(scores)
    ensures s in scores
  {
    SortDescendingSorts(scores);
    assert s in multiset(SortDescending(scores));
  }

  /** In the reranked list the document with the larger cosine comes first, each with its signed square. */
  lemma LargerCosineComesFirst(query: Vector, docs: seq<Candidate>, x: nat, y: nat, c: real, d: real, i: nat, j: nat)
    requires DistinctCandidates(docs) && x < |docs| && y < |docs|
    requires IsCosine(query, docs[x].vector, c) && IsCosine(query, docs[y].vector, d) && c > d
    requires var r := SortDescending(Scores(query, docs));
             i < |r| && j < |r| && r[i].item == docs[x].id && r[j].item == docs[y].id
    ensures var r := SortDescending(Scores(query, docs));
            i < j && r[i].score == SignedSquare(c) && r[j].score == SignedSquare(d)
  {
    var r := SortDescending(Scores(query, docs));
    ScoredFrom(query, docs, x, r[i], c);
    ScoredFrom(query, docs, y, r[j], d);
    SignedSquareOrder(c, d);
    HigherComesFirst(Scores(query, docs), i, j);
  }

  lemma HigherComesFirst(scores: seq<Scored<string>>, i: nat, j: nat)
    requires var r := SortDescending(scores); i < |r| && j < |r| && r[i].score > r[j].score
    ensures i < j
  {
    SortDescendingSorts(scores);
  }

  /** At most 200 candidates, ten pages otherwise, but at least 50. */
  lemma CandidateLimitIs(pageSize: int)
    ensures pageSize <= 5 ==> CandidateLimit(pageSize) == 50
    ensures 5 <= pageSize <= 20 ==> CandidateLimit(pageSize) == 10 * pageSize
    ensures 20 <= pageSize ==> CandidateLimit(pageSize) == 200
  { }

  lemma {:induction false} CandidatesHaveVectors(keyword: seq<Doc>, vectors: map<string, Vector>)
    requires DistinctIds(keyword)
    ensures DistinctCandidates(Candidates(keyword, vectors))
    ensures forall c :: c in Candidates(keyword, vectors) ==>
              c.id in Ids(keyword) && c.id in vectors && c.vector == vectors[c.id]
    ensures forall id :: id in Ids(keyword) && id in vectors ==>
              Candidate(id, vectors[id]) in Candidates(keyword, vectors)
  {
    if |keyword| > 0 {
      var front, last := keyword[..|keyword| - 1], keyword[|keyword| - 1];
      DistinctFront(keyword);
      CandidatesHaveVectors(front, vectors);
      assert Ids(keyword) == Ids(front) + [last.id];
    }
  }

  lemma {:induction false} ByIdsKeepsOrder(keyword: seq<Doc>, ranked: seq<Scored<string>>)
    requires forall i :: 0 <= i < |ranked| ==> ranked[i].item in Ids(keyword)
    ensures Ids(ByIds(keyword, ranked)) == RankedItems(ranked)
  {
    if |ranked| > 0 {
      var front, last := ranked[..|ranked| - 1], ranked[|ranked| - 1];
      ByIdsKeepsOrder(keyword, front);
      assert ByIds(keyword, ranked) == ByIds(keyword, front) + [Shown(keyword, [], last.item)];
      assert RankedItems(ranked) == RankedItems(front) + [last.item];
    }
  }

  /** The semantic list holds the keyword results that have a vector, in the order of the reranker. */
  lemma SemanticResultsAre(keyword: seq<Doc>, vectors: map<string, Vector>, query: Vector)
    requires DistinctIds(keyword)
    ensures var ranked := SortDescending(Scores(query, Candidates(keyword, vectors)));
            Ids(SemanticResults(keyword, vectors, query)) == RankedItems(ranked) && Distinct(RankedItems(ranked))
    ensures forall id :: id in Ids(SemanticResults(keyword, vectors, query)) <==> id in Ids(keyword) && id in vectors
  {
    var docs := Candidates(keyword, vectors);
    var scores := Scores(query, docs);
    CandidatesHaveVectors(keyword, vectors);
    SortKeepsItems(scores);
    assert Distinct(RankedItems(scores)) by {
      assert forall i :: 0 <= i < |docs| ==> RankedItems(scores)[i] == docs[i].id;
    }
    SameItems(RankedItems(scores), RankedItems(SortDescending(scores)));
    CandidateIds(keyword, vectors, query);
    ByIdsKeepsOrder(keyword, SortDescending(scores)) by {
      forall i | 0 <= i < |SortDescending(scores)| ensures SortDescending(scores)[i].item in Ids(keyword) {
        assert RankedItems(SortDescending(scores))[i] in RankedItems(scores);
      }
    }
  }

  lemma CandidateIds(keyword: seq<Doc>, vectors: map<string, Vector>, query: Vector)
    requires DistinctIds(keyword)
    ensures forall id :: id in RankedItems(Scores(query, Candidates(keyword, vectors)))
                    <==> id in Ids(keyword) && id in vectors
  {
    var docs := Candidates(keyword, vectors);
    var items := RankedItems(Scores(query, docs));
    CandidatesHaveVectors(keyword, vectors);
    forall id ensures id in items <==> id in Ids(keyword) && id in vectors {
      if id in items {
        var i :| 0 <= i < |items| && items[i] == id;
        assert docs[i] in docs && docs[i].id == id;
      }
      if id in Ids(keyword) && id in vectors {
        var i :| 0 <= i < |docs| && docs[i] == Candidate(id, vectors[id]);
        assert items[i] == id;
      }
    }
  }

  /** The whole path: of two keyword results with vectors, the one with the better keyword rank and the larger
      cosine comes first; and one with a vector comes before a later one without. */
  lemma BetterBookComesFirst(k: int, keyword: seq<Doc>, vectors: map<string, Vector>, query: Vector, x: nat, y: nat,
                             c: real, d: real, i: nat, j: nat)
    requires k >= 0 && DistinctIds(keyword) && x < y < |keyword| && keyword[x].id in vectors
    requires IsCosine(query, vectors[keyword[x].id], c)
    requires keyword[y].id in vectors ==> IsCosine(query, vectors[keyword[y].id], d) && c > d
    requires var list := Ranking(k, keyword, vectors, query);
             i < |list| && j < |list| && list[i].doc.id == keyword[x].id && list[j].doc.id == keyword[y].id
    ensures i < j
  {
    var semantic := SemanticResults(keyword, vectors, query);
    var ranked := Ranked(k, keyword, semantic);
    SemanticResultsAre(keyword, vectors, query);
    RankedIds(k, keyword, semantic);
    assert ranked[i].item == RankedItems(ranked)[i] && ranked[j].item == RankedItems(ranked)[j];
    SemanticallyAhead(keyword, vectors, query, x, y, c, d);
    AheadEverywherePrecedes(k, keyword, semantic, i, j);
  }

  lemma SemanticallyAhead(keyword: seq<Doc>, vectors: map<string, Vector>, query: Vector, x: nat, y: nat, c: real,
                          d: real)
    requires DistinctIds(keyword) && x < y < |keyword| && keyword[x].id in vectors
    requires IsCosine(query, vectors[keyword[x].id], c)
    requires keyword[y].id in vectors ==> IsCosine(query, vectors[keyword[y].id], d) && c > d
    ensures AheadIn(SemanticResults(keyword, vectors, query), keyword[x].id, keyword[y].id)
  {
    var semantic := SemanticResults(keyword, vectors, query);
    SemanticResultsAre(keyword, vectors, query);
    if keyword[y].id in Ids(semantic) {
      assert Ids(keyword)[x] == keyword[x].id && Ids(keyword)[y] == keyword[y].id;
      var docs := Candidates(keyword, vectors);
      CandidatesHaveVectors(keyword, vectors);
      var u :| 0 <= u < |docs| && docs[u] == Candidate(keyword[x].id, vectors[keyword[x].id]);
      var v :| 0 <= v < |docs| && docs[v] == Candidate(keyword[y].id, vectors[keyword[y].id]);
      var i :| 0 <= i < |Ids(semantic)| && Ids(semantic)[i] == keyword[x].id;
      var j :| 0 <= j < |Ids(semantic)| && Ids(semantic)[j] == keyword[y].id;
      LargerCosineComesFirst(query, docs, u, v, c, d, i, j);
      assert semantic[i].id == keyword[x].id && semantic[j].id == keyword[y].id;
    }
  }
}
