/** How a list of words is cut into overlapping chunks. */
module Chunker {
  import opened Basics
  import opened Text

  // The specification is the relation `IsChunking`.  It says what a good cut is (each end is the best one available,
  // each next start is the earliest one the overlap budget allows) and nothing about how it is found.  The three
  // methods are proved against it, and the promises made about chunks (coverage, bounded size, bounded overlap,
  // lossless reassembly) are proved of the relation.

  datatype Range = Range(start: int, end: int)

  predicate EndsSentence(word: string) {
    |word| > 0 && word[|word| - 1] in ['.', '!', '?']
  }

  /** `e` is an exclusive word index at which a sentence ends; the end of the text always is one. */
  predicate IsSentenceEnd(words: seq<string>, e: int) {
    e == |words| || (1 <= e < |words| && EndsSentence(words[e - 1]))
  }

  predicate HasSentenceEnd(words: seq<string>, lo: int, hi: int) {
    exists e :: lo <= e < hi && IsSentenceEnd(words, e)
  }

  /** `e` is the best end for a chunk that starts at `s`: the largest sentence end within `chunkSize`
      words, or exactly `chunkSize` words when there is none. */
  ghost predicate IsChunkEnd(words: seq<string>, chunkSize: int, s: int, e: int) {
    if HasSentenceEnd(words, s + 1, s + chunkSize + 1) then
      && s < e <= s + chunkSize
      && IsSentenceEnd(words, e)
      && !HasSentenceEnd(words, e + 1, s + chunkSize + 1)
    else
      e == s + chunkSize
  }

  /** `t` is where the chunk after `[s, e)` starts: after a sentence, the earliest sentence start
      that repeats at most `overlap` words and lies after `s`, else `e`; inside a long sentence,
      exactly `overlap` words are repeated (one fewer if that would not advance). */
  ghost predicate IsNextStart(words: seq<string>, overlap: int, s: int, e: int, t: int) {
    var lo := Max(s + 1, e - overlap);
    if IsSentenceEnd(words, e) then
      && lo <= t <= e
      && (t < e ==> IsSentenceEnd(words, t))
      && !HasSentenceEnd(words, lo, t)
    else
      t == lo
  }

  ghost predicate Linked(words: seq<string>, chunkSize: int, overlap: int, rs: seq<Range>) {
    && (forall i :: 0 <= i < |rs| ==> IsChunkEnd(words, chunkSize, rs[i].start, rs[i].end))
    && (forall i :: 0 < i < |rs| ==> IsNextStart(words, overlap, rs[i - 1].start, rs[i - 1].end, rs[i].start))
    && (forall i :: 0 <= i < |rs| - 1 ==> rs[i].end < |words|)
    && (|rs| > 0 ==> rs[0].start == 0)
  }

  ghost predicate IsChunking(words: seq<string>, chunkSize: int, overlap: int, rs: seq<Range>) {
    && Linked(words, chunkSize, overlap, rs)
    && (|rs| == 0 <==> |words| == 0)
    && (|rs| > 0 ==> rs[|rs| - 1].end == |words|)
  }

  // ---------------------------------------------------------------------------------------------
  // The code
  // ---------------------------------------------------------------------------------------------

  method FindSentenceEnds(words: seq<string>) returns (ends: seq<int>)
    ensures |ends| > 0 && ends[|ends| - 1] == |words|
    ensures forall i, j :: 0 <= i < j < |ends| ==> ends[i] < ends[j]
    ensures forall e :: e in ends <==> IsSentenceEnd(words, e)
    ensures forall e :: e in ends <==>
              e == |words| || (1 <= e < |words| && words[e - 1] != "" && words[e - 1][|words[e - 1]| - 1] in ".!?")
  {
    ends := [];
    for i := 0 to |words|
      invariant forall k, j :: 0 <= k < j < |ends| ==> ends[k] < ends[j]
      invariant forall k :: 0 <= k < |ends| ==> 1 <= ends[k] <= i
      invariant forall e :: e in ends <==> 1 <= e <= i && EndsSentence(words[e - 1])
    {
      if EndsSentence(words[i]) {
        ends := ends + [i + 1];
      }
    }
    if |ends| == 0 || ends[|ends| - 1] != |words| {
      assert forall k :: 0 <= k < |ends| ==> ends[k] < |words|;
      ends := ends + [|words|];
    }
  }

  /** Fixed-stride splitting.  Nothing is demanded of the arguments: the stride is at least one. */
  method WordBasedRanges(n: int, chunkSize: int, overlap: int) returns (ranges: seq<Range>)
    ensures n <= 0 <==> |ranges| == 0
    ensures forall k :: 0 <= k < |ranges| ==> IsStride(n, chunkSize, Max(1, chunkSize - overlap), k, ranges[k])
    ensures forall k :: 0 <= k < |ranges| - 1 ==> ranges[k].end != n
    ensures |ranges| > 0 ==> ranges[|ranges| - 1].end == n || n <= |ranges| * Max(1, chunkSize - overlap)
  {
    ranges := [];
    var stride := Max(1, chunkSize - overlap);
    var start := 0;
    while start < n
      invariant start == |ranges| * stride
      invariant n <= 0 ==> ranges == []
      invariant forall k :: 0 <= k < |ranges| ==> IsStride(n, chunkSize, stride, k, ranges[k])
      invariant forall k :: 0 <= k < |ranges| ==> ranges[k].end != n
    {
      var end := Min(start + chunkSize, n);
      ranges := ranges + [Range(start, end)];
      if end == n {
        break;
      }
      OneMoreStride(|ranges| - 1, stride);
      start := start + stride;
    }
  }

  /** The `k`th range of a fixed stride over `n` words. */
  predicate IsStride(n: int, chunkSize: int, stride: int, k: int, r: Range) {
    r.start == k * stride < n && r.end == Min(r.start + chunkSize, n)
  }

  lemma OneMoreStride(k: int, stride: int)
    ensures (k + 1) * stride == k * stride + stride
  { }

  /** The inner scan of the main loop: the last sentence end after `start` and up to `maxEnd`. */
  method LastEndWithin(ends: seq<int>, start: int, maxEnd: int) returns (best: int, found: bool)
    requires forall i, j :: 0 <= i < j < |ends| ==> ends[i] < ends[j]
    ensures found ==> best in ends && start < best <= maxEnd
    ensures found ==> forall e :: e in ends && e <= maxEnd ==> e <= best
    ensures !found ==> forall e :: e in ends ==> !(start < e <= maxEnd)
  {
    best, found := maxEnd, false;
    var i := 0;
    while i < |ends|
      invariant 0 <= i <= |ends|
      invariant found ==> 0 < i && best == ends[i - 1] && start < best <= maxEnd
      invariant !found ==> forall j :: 0 <= j < i ==> ends[j] <= start
    {
      if ends[i] <= start {
        i := i + 1;
        continue;
      }
      if ends[i] <= maxEnd {
        best, found := ends[i], true;
      } else {
        break;
      }
      i := i + 1;
    }
  }

  /** The scan for the next start: the first sentence start in `[target, end)`, else `end`. */
  method FirstStartWithin(starts: seq<int>, target: int, end: int) returns (next: int)
    requires forall i, j :: 0 <= i < j < |starts| ==> starts[i] < starts[j]
    requires target <= end
    ensures target <= next <= end
    ensures next < end ==> next in starts
    ensures forall s :: s in starts ==> !(target <= s < next)
  {
    next := end;
    var i := 0;
    while i < |starts|
      invariant 0 <= i <= |starts|
      invariant next == end
      invariant forall j :: 0 <= j < i ==> starts[j] < target
    {
      if starts[i] < target {
        i := i + 1;
        continue;
      }
      if starts[i] >= end {
        break;
      }
      next := starts[i];
      break;
    }
  }

  method SentenceAwareRanges(words: seq<string>, chunkSize: int, overlap: int) returns (result: seq<Range>)
    requires 0 <= overlap < chunkSize
    ensures IsChunking(words, chunkSize, overlap, result)
  {
    var n := |words|;
    if n == 0 {
      return [];
    }
    var sentEnds := FindSentenceEnds(words);
    if |sentEnds| <= 1 {
      result := WordBasedRanges(n, chunkSize, overlap);
      assert forall e :: IsSentenceEnd(words, e) ==> e == n by {
        forall e | IsSentenceEnd(words, e) ensures e == n { assert e in sentEnds; }
      }
      FixedStrideIsChunking(words, chunkSize, overlap, result);
      return;
    }
    var sentStarts := [0] + sentEnds[..|sentEnds| - 1];
    assert StartsAre(words, sentEnds, sentStarts) by { SentenceStarts(words, sentEnds); }

    result := [];
    var start := 0;
    while start < n
      invariant 0 <= start <= n
      invariant Linked(words, chunkSize, overlap, result)
      invariant forall i :: 0 <= i < |result| ==> result[i].end < n
      invariant |result| == 0 ==> start == 0
      invariant |result| > 0 ==>
                  IsNextStart(words, overlap, result[|result| - 1].start, result[|result| - 1].end, start)
    {
      var maxEnd := Min(start + chunkSize, n);
      var bestEnd, atSentence := LastEndWithin(sentEnds, start, maxEnd);
      if !atSentence {
        bestEnd := maxEnd;
      }
      BestEndIsChunkEnd(words, chunkSize, start, sentEnds, bestEnd, atSentence);
      LinkedSnoc(words, chunkSize, overlap, result, Range(start, bestEnd));
      result := result + [Range(start, bestEnd)];
      if bestEnd >= n {
        break;
      }
      start := Advance(words, overlap, start, bestEnd, sentStarts, atSentence);
    }
  }

  /** The step to the next start, with the overlap applied. */
  method Advance(words: seq<string>, overlap: int, start: int, bestEnd: int, sentStarts: seq<int>, atSentence: bool)
    returns (next: int)
    requires 0 <= start < bestEnd < |words| && overlap >= 0
    requires forall i, j :: 0 <= i < j < |sentStarts| ==> sentStarts[i] < sentStarts[j]
    requires forall x :: 0 < x < |words| ==> (x in sentStarts <==> IsSentenceEnd(words, x))
    requires atSentence <==> IsSentenceEnd(words, bestEnd)
    ensures start < next <= bestEnd && IsNextStart(words, overlap, start, bestEnd, next)
  {
    if overlap > 0 && atSentence {
      var target := Max(start + 1, bestEnd - overlap);
      next := FirstStartWithin(sentStarts, target, bestEnd);
    } else if overlap > 0 {
      next := Max(start + 1, bestEnd - overlap);
    } else {
      next := bestEnd;
    }
    NextStartFound(words, overlap, start, bestEnd, sentStarts, atSentence, next);
  }

  lemma LinkedSnoc(words: seq<string>, chunkSize: int, overlap: int, rs: seq<Range>, r: Range)
    requires Linked(words, chunkSize, overlap, rs)
    requires forall i :: 0 <= i < |rs| ==> rs[i].end < |words|
    requires |rs| == 0 ==> r.start == 0
    requires |rs| > 0 ==> IsNextStart(words, overlap, rs[|rs| - 1].start, rs[|rs| - 1].end, r.start)
    requires IsChunkEnd(words, chunkSize, r.start, r.end)
    ensures Linked(words, chunkSize, overlap, rs + [r])
  { }

  lemma NextStartFound(words: seq<string>, overlap: int, s: int, e: int, starts: seq<int>, atSentence: bool, t: int)
    requires 0 <= s < e < |words| && overlap >= 0
    requires forall x :: 0 < x < |words| ==> (x in starts <==> IsSentenceEnd(words, x))
    requires atSentence <==> IsSentenceEnd(words, e)
    requires var lo := Max(s + 1, e - overlap);
      if overlap > 0 && atSentence then
        && lo <= t <= e && (t < e ==> t in starts)
        && (forall x :: x in starts ==> !(lo <= x < t))
      else if overlap > 0 then t == lo
      else t == e
    ensures IsNextStart(words, overlap, s, e, t)
  { }

  ghost predicate StartsAre(words: seq<string>, ends: seq<int>, starts: seq<int>) {
    && (forall i, j :: 0 <= i < j < |starts| ==> starts[i] < starts[j])
    && (forall s :: 0 < s < |words| ==> (s in starts <==> IsSentenceEnd(words, s)))
  }

  lemma SentenceStarts(words: seq<string>, ends: seq<int>)
    requires |ends| > 0 && ends[|ends| - 1] == |words| > 0
    requires forall i, j :: 0 <= i < j < |ends| ==> ends[i] < ends[j]
    requires forall e :: e in ends <==> IsSentenceEnd(words, e)
    ensures StartsAre(words, ends, [0] + ends[..|ends| - 1])
  {
    var starts := [0] + ends[..|ends| - 1];
    forall i | 0 <= i < |ends| ensures ends[i] >= 1 { assert ends[i] in ends; }
    forall s | 0 < s < |words| ensures s in starts <==> IsSentenceEnd(words, s) {
      if s in starts {
        var i :| 0 <= i < |starts| && starts[i] == s;
        assert ends[i - 1] == s;
        assert s in ends;
      }
      if IsSentenceEnd(words, s) {
        assert s in ends;
        var i :| 0 <= i < |ends| && ends[i] == s;
        assert starts[i + 1] == s;
      }
    }
  }

  lemma BestEndIsChunkEnd(words: seq<string>, chunkSize: int, s: int, ends: seq<int>, best: int, found: bool)
    requires 0 <= s < |words| && chunkSize > 0
    requires forall e :: e in ends <==> IsSentenceEnd(words, e)
    requires found ==> best in ends && s < best <= Min(s + chunkSize, |words|)
    requires found ==> forall e :: e in ends && e <= Min(s + chunkSize, |words|) ==> e <= best
    requires !found ==> best == Min(s + chunkSize, |words|)
    requires !found ==> forall e :: e in ends ==> !(s < e <= Min(s + chunkSize, |words|))
    ensures IsChunkEnd(words, chunkSize, s, best)
    ensures found <==> IsSentenceEnd(words, best)
    ensures s < best <= |words|
  {
    if found {
      assert IsSentenceEnd(words, best);
    } else {
      assert IsSentenceEnd(words, |words|);
      assert |words| in ends;
    }
  }

  /** With no sentence mark inside the text, the fixed-stride shortcut meets the same specification. */
  lemma FixedStrideIsChunking(words: seq<string>, chunkSize: int, overlap: int, rs: seq<Range>)
    requires 0 <= overlap < chunkSize && |words| > 0
    requires forall e :: IsSentenceEnd(words, e) ==> e == |words|
    requires |rs| > 0
    requires forall k :: 0 <= k < |rs| ==> IsStride(|words|, chunkSize, chunkSize - overlap, k, rs[k])
    requires forall k :: 0 <= k < |rs| - 1 ==> rs[k].end != |words|
    requires rs[|rs| - 1].end == |words| || |words| <= |rs| * (chunkSize - overlap)
    ensures IsChunking(words, chunkSize, overlap, rs)
  {
    var n, stride := |words|, chunkSize - overlap;
    assert IsSentenceEnd(words, n);
    forall k | 0 <= k < |rs| ensures rs[k].start >= 0 && IsChunkEnd(words, chunkSize, rs[k].start, rs[k].end) {
      NonNegative(k, stride);
      assert IsStride(n, chunkSize, stride, k, rs[k]);
    }
    forall k | 0 < k < |rs| ensures IsNextStart(words, overlap, rs[k - 1].start, rs[k - 1].end, rs[k].start) {
      assert IsStride(n, chunkSize, stride, k - 1, rs[k - 1]) && IsStride(n, chunkSize, stride, k, rs[k]);
      OneMoreStride(k - 1, stride);
    }
    OneMoreStride(|rs| - 1, stride);
    assert IsStride(n, chunkSize, stride, |rs| - 1, rs[|rs| - 1]) && IsStride(n, chunkSize, stride, 0, rs[0]);
  }

  lemma NonNegative(k: int, stride: int)
    requires k >= 0 && stride >= 0
    ensures k * stride >= 0
  { }

  // ---------------------------------------------------------------------------------------------
  // What every chunking satisfies
  // ---------------------------------------------------------------------------------------------

  ghost predicate InBounds(n: int, chunkSize: int, r: Range) {
    0 <= r.start < r.end <= n && r.end <= r.start + chunkSize
  }

  /** How two neighbouring chunks sit: the second starts later, ends no earlier, leaves no gap and
      repeats at most `overlap` words. */
  ghost predicate Neighbours(overlap: int, a: Range, b: Range) {
    a.start < b.start && a.end <= b.end && 0 <= a.end - b.start <= overlap
  }

  lemma ChunkEndInBounds(words: seq<string>, chunkSize: int, s: int, e: int)
    requires 0 <= s < |words| && chunkSize > 0
    requires IsChunkEnd(words, chunkSize, s, e)
    ensures s < e <= |words| && e <= s + chunkSize
  {
    assert IsSentenceEnd(words, |words|);
  }

  /** Ends never move back: everything the earlier chunk could reach, the later one can too. */
  lemma NextChunkIsNeighbour(words: seq<string>, chunkSize: int, overlap: int, a: Range, b: Range)
    requires 0 <= overlap < chunkSize && 0 <= a.start < |words| && a.end < |words|
    requires IsChunkEnd(words, chunkSize, a.start, a.end)
    requires IsNextStart(words, overlap, a.start, a.end, b.start)
    requires IsChunkEnd(words, chunkSize, b.start, b.end)
    ensures Neighbours(overlap, a, b) && b.start < |words|
  {
    ChunkEndInBounds(words, chunkSize, a.start, a.end);
    ChunkEndInBounds(words, chunkSize, b.start, b.end);
    if HasSentenceEnd(words, a.start + 1, a.start + chunkSize + 1) {
      assert b.start < a.end ==> HasSentenceEnd(words, b.start + 1, b.start + chunkSize + 1);
    } else if HasSentenceEnd(words, b.start + 1, b.start + chunkSize + 1) {
      assert IsSentenceEnd(words, b.end);
    }
  }

  ghost predicate WellShaped(n: int, chunkSize: int, overlap: int, rs: seq<Range>) {
    && (forall i :: 0 <= i < |rs| ==> InBounds(n, chunkSize, rs[i]))
    && (forall i :: 0 < i < |rs| ==> Neighbours(overlap, rs[i - 1], rs[i]))
    && (|rs| > 0 ==> rs[0].start == 0 && rs[|rs| - 1].end == n)
    && (|rs| == 0 <==> n == 0)
  }

  lemma {:induction false} InBoundsUpTo(words: seq<string>, chunkSize: int, overlap: int, rs: seq<Range>, k: int)
    requires 0 <= overlap < chunkSize && IsChunking(words, chunkSize, overlap, rs)
    requires 0 <= k < |rs|
    ensures InBounds(|words|, chunkSize, rs[k])
    ensures k > 0 ==> Neighbours(overlap, rs[k - 1], rs[k])
    decreases k
  {
    if k > 0 {
      InBoundsUpTo(words, chunkSize, overlap, rs, k - 1);
      NextChunkIsNeighbour(words, chunkSize, overlap, rs[k - 1], rs[k]);
    }
    ChunkEndInBounds(words, chunkSize, rs[k].start, rs[k].end);
  }

  /** Chunks cover the text in order: first start 0, last end n, sizes 1..chunkSize, strictly
      increasing starts, ends that never decrease, 0..overlap words shared by neighbours. */
  lemma ChunkingIsWellShaped(words: seq<string>, chunkSize: int, overlap: int, rs: seq<Range>)
    requires 0 <= overlap < chunkSize && IsChunking(words, chunkSize, overlap, rs)
    ensures WellShaped(|words|, chunkSize, overlap, rs)
  {
    forall i | 0 <= i < |rs|
      ensures InBounds(|words|, chunkSize, rs[i]) && (i > 0 ==> Neighbours(overlap, rs[i - 1], rs[i]))
    {
      InBoundsUpTo(words, chunkSize, overlap, rs, i);
    }
  }

  function Slices<T>(words: seq<T>, rs: seq<Range>): seq<seq<T>>
    requires forall i :: 0 <= i < |rs| ==> 0 <= rs[i].start <= rs[i].end <= |words|
  {
    seq(|rs|, i requires 0 <= i < |rs| => words[rs[i].start..rs[i].end])
  }

  /** The first `k` chunks concatenated, after dropping from each the prefix it shares with the one
      before. */
  function Reassemble<T>(chunks: seq<seq<T>>, shared: seq<int>, k: nat): seq<T>
    requires k <= |chunks| == |shared|
    requires forall i :: 0 <= i < |chunks| ==> 0 <= shared[i] <= |chunks[i]|
  {
    if k == 0 then [] else Reassemble(chunks, shared, k - 1) + chunks[k - 1][shared[k - 1]..]
  }

  function SharedPrefixes(rs: seq<Range>): seq<int> {
    seq(|rs|, i requires 0 <= i < |rs| => if i == 0 then 0 else rs[i - 1].end - rs[i].start)
  }

  lemma NewWords<T>(words: seq<T>, lo: int, mid: int, hi: int)
    requires 0 <= lo <= mid <= hi <= |words|
    ensures words[lo..hi][mid - lo..] == words[mid..hi]
    ensures words[..mid] + words[mid..hi] == words[..hi]
  { }

  lemma {:induction false} ReassemblePrefix<T>(words: seq<T>, chunkSize: int, overlap: int, rs: seq<Range>, k: nat)
    requires WellShaped(|words|, chunkSize, overlap, rs) && 0 < k <= |rs|
    ensures Reassemble(Slices(words, rs), SharedPrefixes(rs), k) == words[..rs[k - 1].end]
  {
    NewPart(words, chunkSize, overlap, rs, k - 1);
    if k > 1 {
      ReassemblePrefix(words, chunkSize, overlap, rs, k - 1);
    }
  }

  /** Where the words that a chunk does not share begin. */
  function SharedUpTo(rs: seq<Range>, i: nat): int
    requires i < |rs|
  {
    if i == 0 then 0 else rs[i - 1].end
  }

  lemma NewPart<T>(words: seq<T>, chunkSize: int, overlap: int, rs: seq<Range>, i: nat)
    requires WellShaped(|words|, chunkSize, overlap, rs) && i < |rs|
    ensures var mid := SharedUpTo(rs, i);
            && 0 <= mid <= rs[i].end <= |words|
            && Slices(words, rs)[i][SharedPrefixes(rs)[i]..] == words[mid..rs[i].end]
            && words[..mid] + words[mid..rs[i].end] == words[..rs[i].end]
  {
    assert InBounds(|words|, chunkSize, rs[i]);
    if i > 0 {
      assert Neighbours(overlap, rs[i - 1], rs[i]);
    }
    NewWords(words, rs[i].start, SharedUpTo(rs, i), rs[i].end);
  }

  /** Nothing is lost, duplicated or reordered: dropping each chunk's shared prefix and
      concatenating gives back exactly the words. */
  lemma ReassembleGivesTheWords<T>(words: seq<T>, chunkSize: int, overlap: int, rs: seq<Range>)
    requires WellShaped(|words|, chunkSize, overlap, rs)
    ensures Reassemble(Slices(words, rs), SharedPrefixes(rs), |rs|) == words
  {
    if |rs| > 0 {
      ReassemblePrefix(words, chunkSize, overlap, rs, |rs|);
    }
  }

  lemma {:induction false} AgreeAt(words: seq<string>, chunkSize: int, overlap: int, a: seq<Range>, b: seq<Range>,
                                   k: int)
    requires 0 <= overlap < chunkSize
    requires IsChunking(words, chunkSize, overlap, a) && IsChunking(words, chunkSize, overlap, b)
    requires 0 <= k < |a| && k < |b|
    ensures a[k] == b[k]
    decreases k
  {
    if k > 0 {
      AgreeAt(words, chunkSize, overlap, a, b, k - 1);
    }
  }

  /** The specification leaves the code no freedom: a text has at most one chunking. */
  lemma ChunkingIsUnique(words: seq<string>, chunkSize: int, overlap: int, a: seq<Range>, b: seq<Range>)
    requires 0 <= overlap < chunkSize
    requires IsChunking(words, chunkSize, overlap, a) && IsChunking(words, chunkSize, overlap, b)
    ensures a == b
  {
    forall k | 0 <= k < |a| && k < |b| ensures a[k] == b[k] {
      AgreeAt(words, chunkSize, overlap, a, b, k);
    }
  }

  function CeilDiv(a: int, b: int): int
    requires b > 0
  {
    (a + b - 1) / b
  }

  /** How many chunks a text without inner sentence marks is cut into. */
  lemma FixedStrideCount(words: seq<string>, chunkSize: int, overlap: int, rs: seq<Range>)
    requires 0 <= overlap < chunkSize && |words| > 0
    requires forall e :: IsSentenceEnd(words, e) ==> e == |words|
    requires IsChunking(words, chunkSize, overlap, rs)
    ensures |rs| == if |words| <= chunkSize then 1 else 1 + CeilDiv(|words| - chunkSize, chunkSize - overlap)
    ensures forall k :: 0 <= k < |rs| ==> rs[k].start == k * (chunkSize - overlap)
  {
    var n, stride, last := |words|, chunkSize - overlap, |rs| - 1;
    forall k | 0 <= k < |rs| ensures rs[k].start == k * stride {
      StrideAt(words, chunkSize, overlap, rs, k);
    }
    ChunkingIsWellShaped(words, chunkSize, overlap, rs);
    assert InBounds(n, chunkSize, rs[last]);
    if n > chunkSize {
      assert InBounds(n, chunkSize, rs[last - 1]);
      assert rs[last - 1].end == rs[last - 1].start + chunkSize;
      CeilDivIs(n - chunkSize, stride, last);
    } else {
      assert IsSentenceEnd(words, n);
    }
  }

  lemma {:induction false} StrideAt(words: seq<string>, chunkSize: int, overlap: int, rs: seq<Range>, k: int)
    requires 0 <= overlap < chunkSize && |words| > 0
    requires forall e :: IsSentenceEnd(words, e) ==> e == |words|
    requires IsChunking(words, chunkSize, overlap, rs)
    requires 0 <= k < |rs|
    ensures rs[k].start == k * (chunkSize - overlap)
    decreases k
  {
    if k > 0 {
      StrideAt(words, chunkSize, overlap, rs, k - 1);
      assert k * (chunkSize - overlap) == (k - 1) * (chunkSize - overlap) + (chunkSize - overlap);
      assert !HasSentenceEnd(words, rs[k - 1].start + 1, rs[k - 1].start + chunkSize + 1);
    }
  }

  lemma CeilDivIs(a: int, b: int, q: int)
    requires b > 0 && (q - 1) * b < a <= q * b
    ensures CeilDiv(a, b) == q
  {
    var r := a + b - 1 - q * b;
    assert (q - 1) * b == q * b - b;
    assert a + b - 1 == q * b + r && 0 <= r < b;
    DivIs(a + b - 1, b, q, r);
  }

  lemma DivIs(a: int, b: int, q: int, r: int)
    requires b > 0 && a == q * b + r && 0 <= r < b
    ensures a / b == q
  {
    var d := a / b - q;
    assert (a / b) * b == q * b + d * b;
    assert d * b == r - a % b;
    AtLeastOneMultiple(d, b);
  }

  lemma AtLeastOneMultiple(d: int, b: int)
    requires b > 0
    ensures d >= 1 ==> d * b >= b
    ensures d <= -1 ==> d * b <= -b
  { }

  /** A chunk can lie wholly inside the one before it.  For two neighbours this happens exactly when
      the second repeats a sentence and no sentence end is near enough to take it further. */
  lemma EndStallsExactlyWhen(words: seq<string>, chunkSize: int, overlap: int, rs: seq<Range>, i: int)
    requires 0 <= overlap < chunkSize && IsChunking(words, chunkSize, overlap, rs)
    requires 0 < i < |rs|
    ensures rs[i].end == rs[i - 1].end
       <==> (rs[i].start < rs[i - 1].end && IsSentenceEnd(words, rs[i - 1].end)
             && !HasSentenceEnd(words, rs[i - 1].end + 1, rs[i].start + chunkSize + 1))
  {
    InBoundsUpTo(words, chunkSize, overlap, rs, i);
    InBoundsUpTo(words, chunkSize, overlap, rs, i - 1);
    var a, b := rs[i - 1], rs[i];
    assert IsSentenceEnd(words, a.end) && b.start < a.end ==>
             HasSentenceEnd(words, b.start + 1, b.start + chunkSize + 1);
    if !IsSentenceEnd(words, a.end) {
      assert !HasSentenceEnd(words, a.start + 1, a.start + chunkSize + 1);
    }
  }

  /** The smallest of stalls: the second sentence fits in no other chunk, so it is indexed twice. */
  lemma NestedChunkExample(words: seq<string>, rs: seq<Range>)
    requires words == ["a.", "b.", "c", "d", "e", "f", "g", "h."]
    requires IsChunking(words, 3, 1, rs)
    ensures rs[..3] == [Range(0, 2), Range(1, 2), Range(2, 5)]
  {
    assert IsSentenceEnd(words, 1) && IsSentenceEnd(words, 2);
    assert !HasSentenceEnd(words, 3, 8);
    ChunkingIsWellShaped(words, 3, 1, rs);
    assert InBounds(8, 3, rs[0]) && rs[0] == Range(0, 2);
    assert InBounds(8, 3, rs[1]) && rs[1] == Range(1, 2);
    assert InBounds(8, 3, rs[2]);
  }

  // ---------------------------------------------------------------------------------------------
  // From text and pages to chunks
  // ---------------------------------------------------------------------------------------------

  datatype ChunkError = ChunkSizeNotPositive | OverlapNegative | OverlapNotBelowChunkSize

  datatype Result<T> = Ok(value: T) | Err(error: ChunkError)

  datatype Page = Page(number: int, text: string)

  datatype PageChunk = PageChunk(text: string, pageStart: int, pageEnd: int)

  /** The argument checks shared by both entry points, in the order the code makes them. */
  ghost predicate ArgumentsAnswered<T>(chunkSize: int, overlap: int, r: Result<T>) {
    && (r.Ok? <==> 0 <= overlap < chunkSize)
    && (chunkSize <= 0 ==> r == Err(ChunkSizeNotPositive))
    && (chunkSize > 0 && overlap < 0 ==> r == Err(OverlapNegative))
    && (chunkSize > 0 && overlap >= chunkSize ==> r == Err(OverlapNotBelowChunkSize))
  }

  /** `out` is the text of the ranges `rs` of `words`. */
  ghost predicate TextsOf(words: seq<string>, rs: seq<Range>, out: seq<string>) {
    && |out| == |rs|
    && (forall i :: 0 <= i < |rs| ==>
          0 <= rs[i].start < rs[i].end <= |words| && out[i] == Join(words[rs[i].start..rs[i].end]))
  }

  ghost predicate PagedTextsOf(words: seq<string>, wordPages: seq<int>, rs: seq<Range>, out: seq<PageChunk>)
    requires |wordPages| == |words|
  {
    && |out| == |rs|
    && (forall i :: 0 <= i < |rs| ==>
          && 0 <= rs[i].start < rs[i].end <= |words|
          && out[i] == PageChunk(Join(words[rs[i].start..rs[i].end]), wordPages[rs[i].start], wordPages[rs[i].end - 1]))
  }

  /** What the plain entry point must return for a text. */
  ghost predicate ChunksOf(text: string, chunkSize: int, overlap: int, out: seq<string>) {
    exists rs: seq<Range> :: IsChunking(Split(text), chunkSize, overlap, rs) && TextsOf(Split(text), rs, out)
  }

  function PageWords(pages: seq<Page>): seq<string> {
    if |pages| == 0 then [] else PageWords(pages[..|pages| - 1]) + Split(pages[|pages| - 1].text)
  }

  /** The page number each word of `PageWords(pages)` came from. */
  function WordPages(pages: seq<Page>): (r: seq<int>)
    ensures |r| == |PageWords(pages)|
  {
    if |pages| == 0 then []
    else
      var last := pages[|pages| - 1];
      WordPages(pages[..|pages| - 1]) + seq(|Split(last.text)|, _ => last.number)
  }

  ghost predicate PageChunksOf(pages: seq<Page>, chunkSize: int, overlap: int, out: seq<PageChunk>) {
    exists rs: seq<Range> :: IsChunking(PageWords(pages), chunkSize, overlap, rs)
              && PagedTextsOf(PageWords(pages), WordPages(pages), rs, out)
  }

  method ChunkText(text: string, chunkSize: int, overlap: int) returns (r: Result<seq<string>>)
    ensures ArgumentsAnswered(chunkSize, overlap, r)
    ensures r.Ok? ==> ChunksOf(text, chunkSize, overlap, r.value)
  {
    if chunkSize <= 0 {
      return Err(ChunkSizeNotPositive);
    }
    if overlap < 0 {
      return Err(OverlapNegative);
    }
    if overlap >= chunkSize {
      return Err(OverlapNotBelowChunkSize);
    }
    var normalised := Strip(Collapse(text));
    var words := Split(normalised);
    NormalisingKeepsTheWords(text);
    if |words| == 0 {
      assert IsChunking(words, chunkSize, overlap, []) && TextsOf(words, [], []);
      return Ok([]);
    }
    var ranges := SentenceAwareRanges(words, chunkSize, overlap);
    ChunkingIsWellShaped(words, chunkSize, overlap, ranges);
    assert forall i :: 0 <= i < |ranges| ==> InBounds(|words|, chunkSize, ranges[i]);
    var out := seq(|ranges|, i requires 0 <= i < |ranges| => Join(words[ranges[i].start..ranges[i].end]));
    assert TextsOf(words, ranges, out);
    r := Ok(out);
  }

  method ChunkTextWithPages(pages: seq<Page>, chunkSize: int, overlap: int) returns (r: Result<seq<PageChunk>>)
    ensures ArgumentsAnswered(chunkSize, overlap, r)
    ensures r.Ok? ==> PageChunksOf(pages, chunkSize, overlap, r.value)
  {
    if chunkSize <= 0 {
      return Err(ChunkSizeNotPositive);
    }
    if overlap < 0 {
      return Err(OverlapNegative);
    }
    if overlap >= chunkSize {
      return Err(OverlapNotBelowChunkSize);
    }
    var allWords, wordPages := CollectWords(pages);
    if |allWords| == 0 {
      assert IsChunking(allWords, chunkSize, overlap, []) && PagedTextsOf(allWords, wordPages, [], []);
      return Ok([]);
    }
    var ranges := SentenceAwareRanges(allWords, chunkSize, overlap);
    ChunkingIsWellShaped(allWords, chunkSize, overlap, ranges);
    var result := AttachPages(allWords, wordPages, chunkSize, ranges);
    r := Ok(result);
  }

  /** The first loop: all words in reading order, each with the page it came from. */
  method CollectWords(pages: seq<Page>) returns (allWords: seq<string>, wordPages: seq<int>)
    ensures allWords == PageWords(pages) && wordPages == WordPages(pages)
  {
    allWords, wordPages := [], [];
    for i := 0 to |pages|
      invariant allWords == PageWords(pages[..i]) && wordPages == WordPages(pages[..i])
    {
      var words := Split(Strip(Collapse(pages[i].text)));
      NormalisingKeepsTheWords(pages[i].text);
      allWords := allWords + words;
      wordPages := wordPages + seq(|words|, _ => pages[i].number);
      assert pages[..i + 1][..i] == pages[..i];
    }
    assert pages[..|pages|] == pages;
  }

  /** The last loop: the text of each range with the pages of its first and last word. */
  method AttachPages(words: seq<string>, wordPages: seq<int>, chunkSize: int, ranges: seq<Range>)
    returns (result: seq<PageChunk>)
    requires |wordPages| == |words|
    requires forall i :: 0 <= i < |ranges| ==> InBounds(|words|, chunkSize, ranges[i])
    ensures PagedTextsOf(words, wordPages, ranges, result)
  {
    result := [];
    for i := 0 to |ranges|
      invariant |result| == i
      invariant forall k :: 0 <= k < i ==>
                  result[k] == PageChunk(Join(words[ranges[k].start..ranges[k].end]),
                                         wordPages[ranges[k].start], wordPages[ranges[k].end - 1])
    {
      var s, e := ranges[i].start, ranges[i].end;
      result := result + [PageChunk(Join(words[s..e]), wordPages[s], wordPages[e - 1])];
    }
  }

  lemma SplitChunksAreSlices(words: seq<string>, rs: seq<Range>, out: seq<string>)
    requires forall i :: 0 <= i < |words| ==> IsWord(words[i])
    requires TextsOf(words, rs, out)
    ensures SplitAll(out) == Slices(words, rs)
  {
    forall i | 0 <= i < |rs| ensures Split(out[i]) == words[rs[i].start..rs[i].end] {
      SplitUndoesJoin(words[rs[i].start..rs[i].end]);
    }
  }

  /** Each chunk has 1..chunkSize words, of which at most `overlap` repeat the chunk before. */
  ghost predicate SharesAtMost(chunkSize: int, overlap: int, chunks: seq<seq<string>>, shared: seq<int>) {
    && |shared| == |chunks|
    && (forall i :: 0 <= i < |chunks| ==> 0 < |chunks[i]| <= chunkSize && 0 <= shared[i] <= |chunks[i]|)
    && (forall i :: 0 <= i < |chunks| ==> shared[i] <= overlap)
  }

  lemma SlicesShareAtMost(words: seq<string>, chunkSize: int, overlap: int, rs: seq<Range>)
    requires overlap >= 0 && WellShaped(|words|, chunkSize, overlap, rs)
    ensures SharesAtMost(chunkSize, overlap, Slices(words, rs), SharedPrefixes(rs))
  {
    var chunks, shared := Slices(words, rs), SharedPrefixes(rs);
    forall i | 0 <= i < |rs|
      ensures 0 < |chunks[i]| <= chunkSize && 0 <= shared[i] <= |chunks[i]| && shared[i] <= overlap
    {
      assert InBounds(|words|, chunkSize, rs[i]);
      if i > 0 {
        assert Neighbours(overlap, rs[i - 1], rs[i]);
      }
    }
  }

  /** No text is lost between a document and its chunk strings: splitting the chunks and dropping
      the shared words gives exactly the words of the document. */
  lemma ChunkStringsHoldTheText(text: string, chunkSize: int, overlap: int, out: seq<string>)
    requires 0 <= overlap < chunkSize && ChunksOf(text, chunkSize, overlap, out)
    ensures exists shared: seq<int> ::
              && SharesAtMost(chunkSize, overlap, SplitAll(out), shared)
              && Reassemble(SplitAll(out), shared, |out|) == Split(text)
  {
    var words := Split(text);
    var rs: seq<Range> :| IsChunking(words, chunkSize, overlap, rs) && TextsOf(words, rs, out);
    ChunkingIsWellShaped(words, chunkSize, overlap, rs);
    SplitYieldsWords(text);
    SplitChunksAreSlices(words, rs, out);
    SlicesShareAtMost(words, chunkSize, overlap, rs);
    ReassembleGivesTheWords(words, chunkSize, overlap, rs);
    assert SharesAtMost(chunkSize, overlap, SplitAll(out), SharedPrefixes(rs));
  }

  function PageTexts(pages: seq<Page>): seq<string> {
    seq(|pages|, i requires 0 <= i < |pages| => pages[i].text)
  }

  lemma {:induction false} FlattenSnoc<T>(parts: seq<seq<T>>, last: seq<T>)
    ensures Flatten(parts + [last]) == Flatten(parts) + last
  {
    if |parts| == 0 {
      assert Flatten([last]) == last + [];
    } else {
      assert (parts + [last])[1..] == parts[1..] + [last];
      FlattenSnoc(parts[1..], last);
    }
  }

  lemma {:induction false} PageWordsFlatten(pages: seq<Page>)
    ensures PageWords(pages) == Flatten(SplitAll(PageTexts(pages)))
  {
    if |pages| > 0 {
      var n := |pages| - 1;
      PageWordsFlatten(pages[..n]);
      PageTextsSnoc(pages);
      FlattenSnoc(SplitAll(PageTexts(pages[..n])), Split(pages[n].text));
    }
  }

  lemma PageTextsSnoc(pages: seq<Page>)
    requires |pages| > 0
    ensures var n := |pages| - 1;
            SplitAll(PageTexts(pages)) == SplitAll(PageTexts(pages[..n])) + [Split(pages[n].text)]
  {
    var n := |pages| - 1;
    assert PageTexts(pages) == PageTexts(pages[..n]) + [pages[n].text];
    SplitAllSnoc(PageTexts(pages[..n]), pages[n].text);
  }

  lemma SplitAllSnoc(parts: seq<string>, last: string)
    ensures SplitAll(parts + [last]) == SplitAll(parts) + [Split(last)]
  { }

  lemma JoinedPagesHaveTheirWords(pages: seq<Page>)
    ensures Split(Join(PageTexts(pages))) == PageWords(pages)
  {
    PageWordsFlatten(pages);
    SplitJoin(PageTexts(pages));
  }

  /** Tracking pages does not change the chunks: they are those of the page texts joined by a space. */
  lemma PagesDoNotChangeTheChunks(pages: seq<Page>, chunkSize: int, overlap: int, paged: seq<PageChunk>,
                                  plain: seq<string>)
    requires 0 <= overlap < chunkSize
    requires PageChunksOf(pages, chunkSize, overlap, paged)
    requires ChunksOf(Join(PageTexts(pages)), chunkSize, overlap, plain)
    ensures |paged| == |plain| && forall i :: 0 <= i < |paged| ==> paged[i].text == plain[i]
  {
    var words := PageWords(pages);
    JoinedPagesHaveTheirWords(pages);
    var a: seq<Range> :| IsChunking(words, chunkSize, overlap, a) && PagedTextsOf(words, WordPages(pages), a, paged);
    var b: seq<Range> :| IsChunking(words, chunkSize, overlap, b) && TextsOf(words, b, plain);
    ChunkingIsUnique(words, chunkSize, overlap, a, b);
    SameRangesSameTexts(words, WordPages(pages), a, paged, plain);
  }

  lemma SameRangesSameTexts(words: seq<string>, wordPages: seq<int>, rs: seq<Range>, paged: seq<PageChunk>,
                            plain: seq<string>)
    requires |wordPages| == |words|
    requires PagedTextsOf(words, wordPages, rs, paged) && TextsOf(words, rs, plain)
    ensures |paged| == |plain| && forall i :: 0 <= i < |paged| ==> paged[i].text == plain[i]
  { }

  predicate PagesInOrder(pages: seq<Page>) {
    forall i, j :: 0 <= i < j < |pages| ==> pages[i].number <= pages[j].number
  }

  lemma {:induction false} WordPagesInOrder(pages: seq<Page>)
    requires PagesInOrder(pages)
    ensures forall i, j :: 0 <= i <= j < |WordPages(pages)| ==> WordPages(pages)[i] <= WordPages(pages)[j]
    ensures |pages| > 0 ==> forall i :: 0 <= i < |WordPages(pages)| ==> WordPages(pages)[i] <= pages[|pages| - 1].number
  {
    if |pages| > 0 {
      var n := |pages| - 1;
      WordPagesInOrder(pages[..n]);
      var before := WordPages(pages[..n]);
      forall i | 0 <= i < |WordPages(pages)| ensures WordPages(pages)[i] <= pages[n].number {
        if i < |before| {
          assert WordPages(pages)[i] == before[i] <= pages[..n][n - 1].number;
        }
      }
    }
  }

  /** `[pageStart, pageEnd]` spans the page of every word of the chunk. */
  /** The chunk runs from the page of its first word to the page of its last, over all in between. */
  ghost predicate SpansItsWords(wordPages: seq<int>, r: Range, c: PageChunk) {
    && 0 <= r.start < r.end <= |wordPages|
    && c.pageStart == wordPages[r.start] && c.pageEnd == wordPages[r.end - 1]
    && forall k :: r.start <= k < r.end ==> c.pageStart <= wordPages[k] <= c.pageEnd
  }

  lemma SpansFromOrder(words: seq<string>, wordPages: seq<int>, chunkSize: int, overlap: int, rs: seq<Range>,
                       out: seq<PageChunk>)
    requires WellShaped(|words|, chunkSize, overlap, rs)
    requires |wordPages| == |words| && PagedTextsOf(words, wordPages, rs, out)
    requires forall i, j :: 0 <= i <= j < |wordPages| ==> wordPages[i] <= wordPages[j]
    ensures forall i :: 0 <= i < |rs| ==> SpansItsWords(wordPages, rs[i], out[i])
    ensures forall i :: 0 < i < |rs| ==>
              out[i - 1].pageStart <= out[i].pageStart && out[i - 1].pageEnd <= out[i].pageEnd
  {
    forall i | 0 <= i < |rs| ensures SpansItsWords(wordPages, rs[i], out[i]) {
      assert InBounds(|words|, chunkSize, rs[i]);
    }
    forall i | 0 < i < |rs|
      ensures out[i - 1].pageStart <= out[i].pageStart && out[i - 1].pageEnd <= out[i].pageEnd
    {
      assert Neighbours(overlap, rs[i - 1], rs[i]);
    }
  }

  /** With pages in order, the bounds of each chunk span the pages of its words and never decrease
      along the output. */
  lemma ChunkPagesSpanTheWords(pages: seq<Page>, chunkSize: int, overlap: int, out: seq<PageChunk>)
    requires 0 <= overlap < chunkSize && PagesInOrder(pages)
    requires PageChunksOf(pages, chunkSize, overlap, out)
    ensures exists rs: seq<Range> ::
              && IsChunking(PageWords(pages), chunkSize, overlap, rs)
              && PagedTextsOf(PageWords(pages), WordPages(pages), rs, out)
              && (forall i :: 0 <= i < |rs| ==> SpansItsWords(WordPages(pages), rs[i], out[i]))
    ensures forall i :: 0 < i < |out| ==>
              out[i - 1].pageStart <= out[i].pageStart && out[i - 1].pageEnd <= out[i].pageEnd
  {
    var words, wordPages := PageWords(pages), WordPages(pages);
    var rs: seq<Range> :| IsChunking(words, chunkSize, overlap, rs) && PagedTextsOf(words, wordPages, rs, out);
    RangesSpanTheirWords(pages, chunkSize, overlap, rs, out);
  }

  lemma RangesSpanTheirWords(pages: seq<Page>, chunkSize: int, overlap: int, rs: seq<Range>, out: seq<PageChunk>)
    requires 0 <= overlap < chunkSize && PagesInOrder(pages)
    requires IsChunking(PageWords(pages), chunkSize, overlap, rs)
    requires PagedTextsOf(PageWords(pages), WordPages(pages), rs, out)
    ensures |out| == |rs|
    ensures forall i :: 0 <= i < |rs| ==> SpansItsWords(WordPages(pages), rs[i], out[i])
    ensures forall i :: 0 < i < |rs| ==>
              out[i - 1].pageStart <= out[i].pageStart && out[i - 1].pageEnd <= out[i].pageEnd
  {
    ChunkingIsWellShaped(PageWords(pages), chunkSize, overlap, rs);
    WordPagesInOrder(pages);
    SpansFromOrder(PageWords(pages), WordPages(pages), chunkSize, overlap, rs, out);
  }

  /** The word at position `at` of the tracked words, and its page. */
  predicate Tracked(pages: seq<Page>, at: nat, word: string, number: int) {
    at < |PageWords(pages)| && PageWords(pages)[at] == word && WordPages(pages)[at] == number
  }

  /** The `k`th word of page `i` is tracked with that page, after the words of the pages before it. */
  lemma {:induction false} EachWordHasItsPage(pages: seq<Page>, i: nat, k: nat)
    requires i < |pages| && k < |Split(pages[i].text)|
    ensures Tracked(pages, |PageWords(pages[..i])| + k, Split(pages[i].text)[k], pages[i].number)
  {
    if i == |pages| - 1 {
      LastPageTracked(pages, k);
    } else {
      var front := pages[..|pages| - 1];
      assert front[..i] == pages[..i];
      EachWordHasItsPage(front, i, k);
      FrontStaysTracked(pages, |PageWords(pages[..i])| + k, Split(pages[i].text)[k], pages[i].number);
    }
  }

  lemma LastPageTracked(pages: seq<Page>, k: nat)
    requires |pages| > 0 && k < |Split(pages[|pages| - 1].text)|
    ensures var last := pages[|pages| - 1];
            Tracked(pages, |PageWords(pages[..|pages| - 1])| + k, Split(last.text)[k], last.number)
  {
    var front, last := pages[..|pages| - 1], pages[|pages| - 1];
    InSecondPart(PageWords(front), Split(last.text), k);
    InSecondPart(WordPages(front), seq(|Split(last.text)|, _ => last.number), k);
  }

  lemma FrontStaysTracked(pages: seq<Page>, at: nat, word: string, number: int)
    requires |pages| > 0 && Tracked(pages[..|pages| - 1], at, word, number)
    ensures Tracked(pages, at, word, number)
  {
    var front, last := pages[..|pages| - 1], pages[|pages| - 1];
    InFirstPart(PageWords(front), Split(last.text), at);
    InFirstPart(WordPages(front), seq(|Split(last.text)|, _ => last.number), at);
  }

  lemma InFirstPart<T>(a: seq<T>, b: seq<T>, i: nat)
    requires i < |a|
    ensures i < |a + b| && (a + b)[i] == a[i]
  { }

  lemma InSecondPart<T>(a: seq<T>, b: seq<T>, i: nat)
    requires i < |b|
    ensures |a| + i < |a + b| && (a + b)[|a| + i] == b[i]
  { }

  /** A sentence ends before position `e`: the word there ends in a full stop, an exclamation mark or a
      question mark, or the text ends. */
  predicate EndsHere(words: seq<string>, e: int) {
    e == |words| || (1 <= e < |words| && words[e - 1] != "" && words[e - 1][|words[e - 1]| - 1] in ".!?")
  }

  /** Every chunk ends at the last sentence end within `chunkSize` words, or after exactly `chunkSize` words
      if there is none. */
  lemma ChunkEndsAreOptimal(words: seq<string>, chunkSize: int, overlap: int, rs: seq<Range>, i: int)
    requires 0 <= overlap < chunkSize && IsChunking(words, chunkSize, overlap, rs) && 0 <= i < |rs|
    ensures var s, e := rs[i].start, rs[i].end;
            && s < e <= s + chunkSize
            && (forall x :: e < x <= s + chunkSize ==> !EndsHere(words, x))
            && (!EndsHere(words, e) ==> e == s + chunkSize)
            && (!EndsHere(words, e) ==> forall x :: s < x <= s + chunkSize ==> !EndsHere(words, x))
  {
    var s, e := rs[i].start, rs[i].end;
    assert IsChunkEnd(words, chunkSize, s, e);
    if HasSentenceEnd(words, s + 1, s + chunkSize + 1) {
      forall x | e < x <= s + chunkSize ensures !EndsHere(words, x) {
        assert !HasSentenceEnd(words, e + 1, s + chunkSize + 1);
        assert !IsSentenceEnd(words, x);
      }
    } else {
      forall x | s < x <= s + chunkSize ensures !EndsHere(words, x) {
        assert !IsSentenceEnd(words, x);
      }
    }
  }

  /** After a sentence the next chunk starts at the earliest sentence start that repeats at most `overlap`
      words and comes after the current start, or where the sentence ended; inside a long sentence it
      repeats `overlap` words, or all but one. */
  lemma NextStartsAreEarliest(words: seq<string>, chunkSize: int, overlap: int, rs: seq<Range>, i: int)
    requires 0 <= overlap < chunkSize && IsChunking(words, chunkSize, overlap, rs) && 0 <= i < |rs| - 1
    ensures var s, e, t := rs[i].start, rs[i].end, rs[i + 1].start;
            && s < t <= e && t >= e - overlap
            && (t < e && EndsHere(words, e) ==> EndsHere(words, t))
            && (EndsHere(words, e) ==> forall x :: s < x < t && e - overlap <= x ==> !EndsHere(words, x))
            && (!EndsHere(words, e) ==> t == if s + 1 > e - overlap then s + 1 else e - overlap)
  {
    var s, e, t := rs[i].start, rs[i].end, rs[i + 1].start;
    ChunkEndsAreOptimal(words, chunkSize, overlap, rs, i);
    assert IsNextStart(words, overlap, s, e, t);
    if IsSentenceEnd(words, e) {
      forall x | s < x < t && e - overlap <= x ensures !EndsHere(words, x) {
        assert !HasSentenceEnd(words, Max(s + 1, e - overlap), t);
        assert !IsSentenceEnd(words, x);
      }
    }
  }

  /** A chunk string, character by character: its words with one blank between neighbours. */
  ghost predicate IsChunkString(s: string) {
    && s != "" && SpelledBy(s, Split(s))
    && (forall k :: 0 <= k < |s| && IsSpace(s[k]) ==> s[k] == ' ')
    && Count(s, ' ') == |Split(s)| - 1
  }

  lemma JoinedWordsAreAChunkString(words: seq<string>)
    requires |words| > 0 && forall i :: 0 <= i < |words| ==> IsWord(words[i])
    ensures IsChunkString(Join(words)) && Split(Join(words)) == words
  {
    SplitUndoesJoin(words);
    JoinIsSpelled(words);
    OnlyBlanksBetweenWords(words);
    assert words[0] != "";
  }

  /** Every string that the plain entry point returns is spelled out that way. */
  lemma ChunkStringsAreSpelledOut(text: string, chunkSize: int, overlap: int, out: seq<string>, i: int)
    requires 0 <= overlap < chunkSize && ChunksOf(text, chunkSize, overlap, out) && 0 <= i < |out|
    ensures IsChunkString(out[i])
  {
    var words := Split(text);
    var rs: seq<Range> :| IsChunking(words, chunkSize, overlap, rs) && TextsOf(words, rs, out);
    SplitYieldsWords(text);
    PartIsAChunkString(words, rs[i].start, rs[i].end);
  }

  /** So is every string that the entry point for pages returns. */
  lemma PageChunkStringsAreSpelledOut(pages: seq<Page>, chunkSize: int, overlap: int, out: seq<PageChunk>, i: int)
    requires 0 <= overlap < chunkSize && PageChunksOf(pages, chunkSize, overlap, out) && 0 <= i < |out|
    ensures IsChunkString(out[i].text)
  {
    var words, wordPages := PageWords(pages), WordPages(pages);
    var rs: seq<Range> :| IsChunking(words, chunkSize, overlap, rs) && PagedTextsOf(words, wordPages, rs, out);
    JoinedPagesHaveTheirWords(pages);
    SplitYieldsWords(Join(PageTexts(pages)));
    assert out[i].text == Join(words[rs[i].start..rs[i].end]);
    PartIsAChunkString(words, rs[i].start, rs[i].end);
  }

  lemma PartIsAChunkString(words: seq<string>, a: int, b: int)
    requires 0 <= a < b <= |words| && forall i :: 0 <= i < |words| ==> IsWord(words[i])
    ensures IsChunkString(Join(words[a..b]))
  {
    JoinedWordsAreAChunkString(words[a..b]);
  }
}
