/** Collapsing of whitespace in the bundled XML library (src/tinyxml2.cpp), as functions on strings. */
module XmlWhitespace {

  import opened XmlText

  /** isspace in the C locale; bytes from 128 on are no whitespace. */
  predicate IsWhiteSpace(c: char) { c == ' ' || 9 as char <= c <= CR }

  function SkipWhiteSpace(s: string): (rest: string)
    ensures |rest| <= |s| && (rest != [] ==> !IsWhiteSpace(rest[0]))
  {
    if s != [] && IsWhiteSpace(s[0]) then SkipWhiteSpace(s[1..]) else s
  }

  lemma SkipOne(s: string, k: nat)
    requires k < |s| && IsWhiteSpace(s[k])
    ensures SkipWhiteSpace(s[k..]) == SkipWhiteSpace(s[k + 1..])
  {
    assert s[k..][1..] == s[k + 1..];
  }

  lemma SkipNone(s: string, k: nat)
    requires k <= |s| && (k < |s| ==> !IsWhiteSpace(s[k]))
    ensures SkipWhiteSpace(s[k..]) == s[k..]
  {
  }

  /** A C string ends with its first NUL. */
  function UpToNul(s: string): (r: string)
    ensures r <= s && NUL !in r && (|r| < |s| ==> s[|r|] == NUL)
  {
    if s == [] || s[0] == NUL then [] else [s[0]] + UpToNul(s[1..])
  }

  /** The length of the word at the front. */
  function WordEnd(s: string): (n: nat)
    ensures n <= |s| && (n == 0 <==> s == [] || IsWhiteSpace(s[0]))
    ensures (forall i :: 0 <= i < n ==> !IsWhiteSpace(s[i])) && (n < |s| ==> IsWhiteSpace(s[n]))
  {
    if s == [] || IsWhiteSpace(s[0]) then 0 else 1 + WordEnd(s[1..])
  }

  /** The words of a text: its longest stretches without whitespace. */
  function Words(s: string): seq<string>
    decreases |s|
  {
    if s == [] then []
    else if IsWhiteSpace(s[0]) then Words(s[1..])
    else [s[..WordEnd(s)]] + Words(s[WordEnd(s)..])
  }

  function Join(words: seq<string>): string {
    if words == [] then []
    else if |words| == 1 then words[0]
    else words[0] + [' '] + Join(words[1..])
  }

  /** What collapsing is for: the words with one space between two of them. */
  function Collapsed(s: string): string { Join(Words(s)) }

  /** What CollapseWhitespace writes from here on: runs of whitespace become a space, but for the
      one at the end, which goes. */
  function Squeezed(s: string): string
    decreases |s|
  {
    if s == [] then []
    else if !IsWhiteSpace(s[0]) then [s[0]] + Squeezed(s[1..])
    else
      var rest := SkipWhiteSpace(s);
      if rest == [] then [] else [' ', rest[0]] + Squeezed(rest[1..])
  }

  lemma {:induction false} SkipKeepsWords(s: string)
    ensures Words(SkipWhiteSpace(s)) == Words(s)
  {
    if s != [] && IsWhiteSpace(s[0]) { SkipKeepsWords(s[1..]); }
  }

  lemma OneMore(s: string, n: nat, more: string)
    requires n < |s|
    ensures s[1..][n..] == s[n + 1..] && [s[0]] + (s[1..][..n] + more) == s[..n + 1] + more
  {
  }

  /** Inside a word nothing is lost. */
  lemma {:induction false} SqueezedWord(s: string)
    ensures Squeezed(s) == s[..WordEnd(s)] + Squeezed(s[WordEnd(s)..])
    decreases |s|
  {
    hide IsWhiteSpace, SkipWhiteSpace;
    if s == [] || IsWhiteSpace(s[0]) {
      assert s[0..] == s && s[..0] + Squeezed(s) == Squeezed(s);
    } else {
      var n := WordEnd(s[1..]);
      SqueezedWord(s[1..]);
      OneMore(s, n, Squeezed(s[n + 1..]));
    }
  }

  lemma SqueezedGap(s: string)
    requires s != [] && IsWhiteSpace(s[0])
    ensures var rest := SkipWhiteSpace(s);
      |rest| < |s| && Squeezed(s) == if rest == [] then [] else [' '] + Squeezed(rest)
  {
    var rest := SkipWhiteSpace(s);
    if rest != [] { assert [' ', rest[0]] + Squeezed(rest[1..]) == [' '] + ([rest[0]] + Squeezed(rest[1..])); }
  }

  /** Squeezing from position p on, when the next word starts at n. */
  lemma SqueezedFrom(s: string, p: nat, n: nat)
    requires p <= n <= |s| && p < |s|
    ensures !IsWhiteSpace(s[p]) ==> Squeezed(s[p..]) == [s[p]] + Squeezed(s[p + 1..])
    ensures IsWhiteSpace(s[p]) && SkipWhiteSpace(s[p..]) == s[n..] ==>
      Squeezed(s[p..]) == if n == |s| then [] else [' ', s[n]] + Squeezed(s[n + 1..])
  {
    hide IsWhiteSpace, SkipWhiteSpace;
    assert s[p..][1..] == s[p + 1..];
    if n < |s| { assert s[n..][1..] == s[n + 1..]; }
  }

  /** Before position p, `out` was written. */
  ghost predicate SoFar(s: string, p: nat, out: string) { p <= |s| && Squeezed(s) == out + Squeezed(s[p..]) }

  lemma SoFarStarts(s: string)
    ensures SoFar(s, 0, [])
  {
    assert s[0..] == s;
  }

  lemma SoFarGoesOn(s: string, p: nat, next: nat, out: string, written: string)
    requires SoFar(s, p, out) && next <= |s| && Squeezed(s[p..]) == written + Squeezed(s[next..])
    ensures SoFar(s, next, out + written)
  {
    Associative(out, written, Squeezed(s[next..]));
  }

  lemma SoFarEnds(s: string, out: string)
    requires SoFar(s, |s|, out)
    ensures out == Squeezed(s)
  {
    assert out + [] == out;
  }

  lemma CollapsedWord(s: string)
    requires s != [] && !IsWhiteSpace(s[0])
    ensures var (word, more) := (s[..WordEnd(s)], s[WordEnd(s)..]);
      Collapsed(s) == if Words(more) == [] then word else word + [' '] + Collapsed(more)
  {
    hide IsWhiteSpace, WordEnd;
    assert Words(s)[1..] == Words(s[WordEnd(s)..]);
  }

  /** The loop gives the words: from a word on all of them, and from a gap on a space before them. */
  lemma {:induction false} SqueezedIsCollapsed(s: string)
    ensures Squeezed(s)
         == if s != [] && IsWhiteSpace(s[0]) && Words(s) != [] then [' '] + Collapsed(s) else Collapsed(s)
    decreases |s|
  {
    hide IsWhiteSpace, WordEnd, SkipWhiteSpace, Squeezed;
    if s == [] {
      assert Squeezed([]) == [] by { SqueezedNothing(); }
    } else if IsWhiteSpace(s[0]) {
      SqueezedGap(s);
      SkipKeepsWords(s);
      SqueezedIsCollapsed(SkipWhiteSpace(s));
    } else {
      var n := WordEnd(s);
      SqueezedWord(s);
      CollapsedWord(s);
      SqueezedIsCollapsed(s[n..]);
      assert s[..n] + [' '] + Collapsed(s[n..]) == s[..n] + ([' '] + Collapsed(s[n..]));
      assert s[..n] + [] == s[..n];
    }
  }

  /** Skipping first, the gap at the front goes too. */
  lemma SkippedIsCollapsed(s: string)
    ensures Squeezed(SkipWhiteSpace(s)) == Collapsed(s)
  {
    hide IsWhiteSpace, Words, Squeezed;
    SkipKeepsWords(s);
    SqueezedIsCollapsed(SkipWhiteSpace(s));
  }

  lemma SqueezedNothing()
    ensures Squeezed([]) == []
  {
  }

  ghost predicate IsWord(w: string) { w != [] && forall i :: 0 <= i < |w| ==> !IsWhiteSpace(w[i]) }

  lemma {:induction false} WordsAreWords(s: string)
    ensures forall i :: 0 <= i < |Words(s)| ==> IsWord(Words(s)[i])
    decreases |s|
  {
    if s == [] {
    } else if IsWhiteSpace(s[0]) {
      WordsAreWords(s[1..]);
    } else {
      WordsAreWords(s[WordEnd(s)..]);
    }
  }

  lemma {:induction false} FirstWord(w: string, rest: string)
    requires IsWord(w) && (rest == [] || IsWhiteSpace(rest[0]))
    ensures WordEnd(w + rest) == |w|
  {
    assert (w + rest)[1..] == w[1..] + rest;
    if |w| == 1 {
      assert w[1..] + rest == rest;
    } else {
      assert w[1..][0] == w[1];
      FirstWord(w[1..], rest);
    }
  }

  lemma WordInFront(w: string, rest: string)
    requires IsWord(w) && (rest == [] || IsWhiteSpace(rest[0]))
    ensures Words(w + rest) == [w] + Words(rest)
  {
    hide IsWhiteSpace;
    FirstWord(w, rest);
    assert w + rest != [] && !IsWhiteSpace((w + rest)[0]) by { assert (w + rest)[0] == w[0]; }
    assert (w + rest)[..|w|] == w && (w + rest)[|w|..] == rest;
  }

  lemma SpaceInFront(s: string)
    ensures IsWhiteSpace(([' '] + s)[0]) && Words([' '] + s) == Words(s)
  {
    assert ([' '] + s)[1..] == s;
  }

  lemma JoinFirst(words: seq<string>)
    requires words != []
    ensures var others := Join(words[1..]);
      Join(words) == words[0] + if |words| == 1 then [] else [' '] + others
  {
    if |words| == 1 {
      assert words[0] + [] == words[0];
    } else {
      Associative(words[0], [' '], Join(words[1..]));
    }
  }

  /** The words are those that were joined. */
  lemma {:induction false} WordsOfJoin(words: seq<string>)
    requires forall i :: 0 <= i < |words| ==> IsWord(words[i])
    ensures Words(Join(words)) == words
  {
    if words != [] {
      hide Words, Join, IsWord, IsWhiteSpace;
      JoinFirst(words);
      WordsOfJoin(words[1..]);
      if |words| == 1 {
        WordInFront(words[0], []);
        NoWords();
      } else {
        SpaceInFront(Join(words[1..]));
        WordInFront(words[0], [' '] + Join(words[1..]));
      }
    }
  }

  lemma NoWords()
    ensures Words([]) == []
  {
  }

  /** Collapsing keeps the words, all of them, in order, and so collapsing twice is collapsing once. */
  lemma CollapsedKeepsWords(s: string)
    ensures Words(Collapsed(s)) == Words(s) && Collapsed(Collapsed(s)) == Collapsed(s)
  {
    WordsAreWords(s);
    WordsOfJoin(Words(s));
  }
}
