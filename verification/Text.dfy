/** Python's view of text: whitespace, word splitting, whitespace collapsing and joining, as the chunker and the
    installer use them. */
module Text {

  /** The characters for which Python's `str.isspace` holds; `\s` in a pattern matches the same set. */
  predicate IsSpace(c: char) {
    || '\t' <= c <= '\r' || '\U{1C}' <= c <= ' ' || c == '\U{85}' || c == '\U{A0}' || c == '\U{1680}'
    || '\U{2000}' <= c <= '\U{200A}' || c in ['\U{2028}', '\U{2029}', '\U{202F}', '\U{205F}', '\U{3000}']
  }

  predicate NoSpace(s: string) {
    forall i :: 0 <= i < |s| ==> !IsSpace(s[i])
  }

  predicate IsWord(w: string) {
    |w| > 0 && NoSpace(w)
  }

  /** Length of the longest prefix without whitespace. */
  function WordLength(s: string): (k: nat)
    ensures k <= |s| && NoSpace(s[..k])
    ensures k < |s| ==> IsSpace(s[k])
  {
    if s == "" || IsSpace(s[0]) then 0 else 1 + WordLength(s[1..])
  }

  /** Length of the longest prefix of whitespace. */
  function SpaceLength(s: string): (k: nat)
    ensures k <= |s|
  {
    if s == "" || !IsSpace(s[0]) then 0 else 1 + SpaceLength(s[1..])
  }

  /** The position of the first `c`, or the length if there is none. */
  function IndexOf(s: string, c: char): (k: nat)
    ensures k <= |s|
  {
    if s == "" || s[0] == c then 0 else 1 + IndexOf(s[1..], c)
  }

  /** `text.split()` */
  function Split(text: string): seq<string>
    decreases |text|
  {
    if text == "" then []
    else if IsSpace(text[0]) then Split(text[1..])
    else
      var k := WordLength(text);
      [text[..k]] + Split(text[k..])
  }

  /** `re.sub(r"\s+", " ", text)` */
  function Collapse(text: string): string
    decreases |text|
  {
    if text == "" then ""
    else if IsSpace(text[0]) then " " + Collapse(text[SpaceLength(text)..])
    else [text[0]] + Collapse(text[1..])
  }

  function StripLeft(text: string): string {
    text[SpaceLength(text)..]
  }

  function StripRight(text: string): string {
    if text == "" || !IsSpace(text[|text| - 1]) then text else StripRight(text[..|text| - 1])
  }

  /** `text.strip()` */
  function Strip(text: string): string {
    StripRight(StripLeft(text))
  }

  /** `" ".join(parts)` */
  function Join(parts: seq<string>): string {
    if |parts| == 0 then "" else if |parts| == 1 then parts[0] else parts[0] + " " + Join(parts[1..])
  }

  function Flatten<T>(parts: seq<seq<T>>): seq<T> {
    if |parts| == 0 then [] else parts[0] + Flatten(parts[1..])
  }

  // ---------------------------------------------------------------------------------------------

  lemma {:induction false} IndexOfIs(s: string, rest: string, c: char)
    requires c !in s && (rest == "" || rest[0] == c)
    ensures IndexOf(s + rest, c) == |s|
  {
    if s == "" {
      assert s + rest == rest;
    } else {
      assert (s + rest)[1..] == s[1..] + rest;
      IndexOfIs(s[1..], rest, c);
    }
  }

  lemma {:induction false} WordLengthIs(w: string, rest: string)
    requires NoSpace(w) && (rest == "" || IsSpace(rest[0]))
    ensures WordLength(w + rest) == |w|
  {
    if w == "" {
      assert w + rest == rest;
    } else {
      assert (w + rest)[1..] == w[1..] + rest;
      WordLengthIs(w[1..], rest);
    }
  }

  lemma SplitFirstWord(w: string, rest: string)
    requires IsWord(w) && (rest == "" || IsSpace(rest[0]))
    ensures Split(w + rest) == [w] + Split(rest)
  {
    WordLengthIs(w, rest);
    assert (w + rest)[0] == w[0] && (w + rest)[..|w|] == w && (w + rest)[|w|..] == rest;
  }

  lemma {:induction false} SplitYieldsWords(text: string)
    ensures forall i :: 0 <= i < |Split(text)| ==> IsWord(Split(text)[i])
    decreases |text|
  {
    if text != "" {
      if IsSpace(text[0]) {
        SplitYieldsWords(text[1..]);
      } else {
        SplitYieldsWords(text[WordLength(text)..]);
      }
    }
  }

  lemma SplitAfterSpace(c: char, rest: string)
    requires IsSpace(c)
    ensures Split([c] + rest) == Split(rest)
  {
    assert ([c] + rest)[1..] == rest;
  }

  /** Whitespace separates: splitting either side of it loses nothing. */
  lemma {:induction false} SplitAcrossSpace(a: string, c: char, b: string)
    requires IsSpace(c)
    ensures Split(a + [c] + b) == Split(a) + Split(b)
    decreases |a|
  {
    var t := a + [c] + b;
    if a == "" {
      assert t == [c] + b;
      SplitAfterSpace(c, b);
    } else if IsSpace(a[0]) {
      var u := a[1..];
      assert a == [a[0]] + u && t == [a[0]] + (u + [c] + b);
      SplitAfterSpace(a[0], u);
      SplitAfterSpace(a[0], u + [c] + b);
      SplitAcrossSpace(u, c, b);
    } else {
      var w, u := a[..WordLength(a)], a[WordLength(a)..];
      var v := u + [c] + b;
      assert a == w + u && t == w + v;
      SplitAcrossSpace(u, c, b);
      PrependWord(w, u, v, Split(u), Split(b));
    }
  }

  lemma PrependWord(w: string, u: string, v: string, before: seq<string>, after: seq<string>)
    requires IsWord(w) && (u == "" || IsSpace(u[0])) && (v == "" || IsSpace(v[0]))
    requires Split(u) == before && Split(v) == before + after
    ensures Split(w + v) == Split(w + u) + after
  {
    assert Split(w + u) == [w] + before by { SplitFirstWord(w, u); }
    assert Split(w + v) == [w] + (before + after) by { SplitFirstWord(w, v); }
    Reassociate([w], before, after);
  }

  lemma Reassociate<T>(a: seq<T>, b: seq<T>, c: seq<T>)
    ensures a + (b + c) == a + b + c
  { }

  lemma {:induction false} SplitIgnoresLeadingSpace(text: string)
    ensures Split(StripLeft(text)) == Split(text)
  {
    if text != "" && IsSpace(text[0]) {
      SplitIgnoresLeadingSpace(text[1..]);
      assert StripLeft(text) == StripLeft(text[1..]);
    }
  }

  lemma {:induction false} SplitIgnoresTrailingSpace(text: string)
    ensures Split(StripRight(text)) == Split(text)
  {
    if text != "" && IsSpace(text[|text| - 1]) {
      var front := text[..|text| - 1];
      SplitIgnoresTrailingSpace(front);
      SplitAcrossSpace(front, text[|text| - 1], "");
      assert text == front + [text[|text| - 1]] + "";
    }
  }

  lemma {:induction false} CollapseKeepsWord(w: string, rest: string)
    requires NoSpace(w)
    ensures Collapse(w + rest) == w + Collapse(rest)
  {
    if w == "" {
      assert w + rest == rest;
    } else {
      assert (w + rest)[1..] == w[1..] + rest;
      CollapseKeepsWord(w[1..], rest);
    }
  }

  lemma {:induction false} SplitIgnoresCollapse(text: string)
    ensures Split(Collapse(text)) == Split(text)
    decreases |text|
  {
    if text != "" {
      if IsSpace(text[0]) {
        var rest := StripLeft(text);
        SplitIgnoresCollapse(rest);
        SplitIgnoresLeadingSpace(text);
        assert (" " + Collapse(rest))[1..] == Collapse(rest);
      } else {
        var k := WordLength(text);
        var rest := text[k..];
        assert text == text[..k] + rest;
        CollapseKeepsWord(text[..k], rest);
        SplitIgnoresCollapse(rest);
        SplitFirstWord(text[..k], Collapse(rest));
      }
    }
  }

  /** Normalising a text first, as the chunker does, does not change its words. */
  lemma NormalisingKeepsTheWords(text: string)
    ensures Split(Strip(Collapse(text))) == Split(text)
  {
    SplitIgnoresCollapse(text);
    SplitIgnoresLeadingSpace(Collapse(text));
    SplitIgnoresTrailingSpace(StripLeft(Collapse(text)));
  }

  function SplitAll(parts: seq<string>): seq<seq<string>> {
    seq(|parts|, i requires 0 <= i < |parts| => Split(parts[i]))
  }

  lemma {:induction false} SplitJoin(parts: seq<string>)
    ensures Split(Join(parts)) == Flatten(SplitAll(parts))
  {
    if |parts| > 0 {
      assert SplitAll(parts)[1..] == SplitAll(parts[1..]);
      if |parts| == 1 {
        assert Flatten(SplitAll(parts)) == Split(parts[0]) + [];
      } else {
        SplitJoin(parts[1..]);
        SplitAcrossSpace(parts[0], ' ', Join(parts[1..]));
      }
    }
  }

  /** Joining words with single spaces is undone by splitting. */
  lemma {:induction false} SplitUndoesJoin(words: seq<string>)
    requires forall i :: 0 <= i < |words| ==> IsWord(words[i])
    ensures Split(Join(words)) == words
  {
    if |words| == 0 {
    } else if |words| == 1 {
      assert words[0] == words[0] + "";
      SplitFirstWord(words[0], "");
    } else {
      SplitUndoesJoin(words[1..]);
      var rest := Join(words[1..]);
      assert words[0] + " " + rest == words[0] + ([' '] + rest);
      SplitFirstWord(words[0], [' '] + rest);
      SplitAfterSpace(' ', rest);
      assert words == [words[0]] + words[1..];
    }
  }

  // ---------------------------------------------------------------------------------------------
  // What a joined string and a split text look like, character by character
  // ---------------------------------------------------------------------------------------------

  /** Where the `i`th of some strings begins when a single character stands between neighbours. */
  function StartOf(parts: seq<string>, i: nat): nat
    requires i < |parts|
  {
    if i == 0 then 0 else |parts[0]| + 1 + StartOf(parts[1..], i - 1)
  }

  /** `s` is the strings one after the other, with one blank between neighbours and nothing else. */
  predicate SpelledBy(s: string, parts: seq<string>) {
    && (|parts| == 0 ==> s == "")
    && (|parts| > 0 ==> |s| == StartOf(parts, |parts| - 1) + |parts[|parts| - 1]|)
    && forall i :: 0 <= i < |parts| ==> SpelledAt(s, parts, i)
  }

  predicate SpelledAt(s: string, parts: seq<string>, i: nat)
    requires i < |parts|
  {
    var at := StartOf(parts, i);
    && at + |parts[i]| <= |s| && s[at..at + |parts[i]|] == parts[i]
    && (i + 1 < |parts| ==> at + |parts[i]| < |s| && s[at + |parts[i]|] == ' ')
  }

  lemma {:induction false} JoinIsSpelledAt(parts: seq<string>, i: nat)
    requires i < |parts|
    ensures SpelledAt(Join(parts), parts, i)
    ensures i + 1 == |parts| ==> |Join(parts)| == StartOf(parts, i) + |parts[i]|
  {
    if |parts| > 1 {
      var rest := Join(parts[1..]);
      assert Join(parts) == parts[0] + " " + rest;
      if i > 0 {
        JoinIsSpelledAt(parts[1..], i - 1);
        SpelledLater(parts[0], rest, parts, i);
      }
    }
  }

  lemma SpelledLater(first: string, rest: string, parts: seq<string>, i: nat)
    requires 0 < i < |parts| && first == parts[0] && SpelledAt(rest, parts[1..], i - 1)
    ensures SpelledAt(first + " " + rest, parts, i)
  {
    var at, shift := StartOf(parts[1..], i - 1), |first| + 1;
    var s := first + " " + rest;
    assert parts[1..][i - 1] == parts[i];
    assert s[shift..] == rest;
    assert s[shift + at..shift + at + |parts[i]|] == rest[at..at + |parts[i]|];
  }

  lemma JoinIsSpelled(parts: seq<string>)
    ensures SpelledBy(Join(parts), parts)
  {
    forall i | 0 <= i < |parts| ensures SpelledAt(Join(parts), parts, i) {
      JoinIsSpelledAt(parts, i);
    }
    if |parts| > 0 {
      JoinIsSpelledAt(parts, |parts| - 1);
    }
  }

  /** How often `c` occurs. */
  function Count(s: string, c: char): nat {
    if s == "" then 0 else (if s[0] == c then 1 else 0) + Count(s[1..], c)
  }

  lemma {:induction false} CountConcat(s: string, t: string, c: char)
    ensures Count(s + t, c) == Count(s, c) + Count(t, c)
  {
    if s == "" {
      assert s + t == t;
    } else {
      assert (s + t)[1..] == s[1..] + t;
      CountConcat(s[1..], t, c);
    }
  }

  lemma {:induction false} NoBlankInWord(w: string)
    requires NoSpace(w)
    ensures Count(w, ' ') == 0
  {
    if w != "" {
      NoBlankInWord(w[1..]);
    }
  }

  /** The only whitespace in joined words is the blanks, one fewer than there are words. */
  lemma {:induction false} OnlyBlanksBetweenWords(words: seq<string>)
    requires forall i :: 0 <= i < |words| ==> IsWord(words[i])
    ensures forall k :: 0 <= k < |Join(words)| && IsSpace(Join(words)[k]) ==> Join(words)[k] == ' '
    ensures |words| > 0 ==> Count(Join(words), ' ') == |words| - 1
  {
    if |words| > 0 {
      NoBlankInWord(words[0]);
    }
    if |words| > 1 {
      OnlyBlanksBetweenWords(words[1..]);
      CountConcat(words[0] + " ", Join(words[1..]), ' ');
      CountConcat(words[0], " ", ' ');
    }
  }

  /** Letters, digits and punctuation of ASCII. */
  predicate Visible(s: string) {
    forall i :: 0 <= i < |s| ==> '!' <= s[i] <= '~'
  }

  /** The usual separators do separate words, and the visible characters do not. */
  lemma SeparatorsSeparate(a: string, c: char, b: string)
    requires a != "" && b != "" && Visible(a) && Visible(b)
    requires c in [' ', '\t', '\n', '\r', '\U{B}', '\U{C}', '\U{85}', '\U{A0}', '\U{2003}', '\U{3000}']
    ensures Split(a + [c] + b) == [a, b]
  {
    SplitAcrossSpace(a, c, b);
    VisibleIsOneWord(a);
    VisibleIsOneWord(b);
  }

  lemma VisibleIsOneWord(w: string)
    requires w != "" && Visible(w)
    ensures Split(w) == [w]
  {
    SplitFirstWord(w, "");
    assert w + "" == w;
  }

  /** Stripping takes whitespace off both ends and nothing else. */
  lemma StripTakesSpacesOff(left: string, s: string, right: string)
    requires forall i :: 0 <= i < |left| ==> IsSpace(left[i])
    requires forall i :: 0 <= i < |right| ==> IsSpace(right[i])
    requires s != "" && !IsSpace(s[0]) && !IsSpace(s[|s| - 1])
    ensures Strip(left + s + right) == s
  {
    assert left + s + right == left + (s + right);
    StripLeftTakesSpacesOff(left, s + right);
    StripRightTakesSpacesOff(s, right);
  }

  lemma {:induction false} StripLeftTakesSpacesOff(left: string, s: string)
    requires forall i :: 0 <= i < |left| ==> IsSpace(left[i])
    requires s != "" && !IsSpace(s[0])
    ensures StripLeft(left + s) == s
  {
    if left == "" {
      assert left + s == s;
    } else {
      assert (left + s)[1..] == left[1..] + s;
      StripLeftTakesSpacesOff(left[1..], s);
    }
  }

  lemma {:induction false} StripRightTakesSpacesOff(s: string, right: string)
    requires forall i :: 0 <= i < |right| ==> IsSpace(right[i])
    requires s != "" && !IsSpace(s[|s| - 1])
    ensures StripRight(s + right) == s
  {
    if right == "" {
      assert s + right == s;
    } else {
      var n := |right| - 1;
      assert (s + right)[..|s| + n] == s + right[..n];
      StripRightTakesSpacesOff(s, right[..n]);
    }
  }
}
