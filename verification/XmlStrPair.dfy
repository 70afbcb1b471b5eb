/** `StrPair::ParseText` and `StrPair::GetStr`, which work in place on the text that was read, and
    `XMLPrinter::PrintString` (src/tinyxml2.cpp). */
module XmlStrPairs {

  import opened Options
  import opened XmlText
  import opened XmlWhitespace

  function CountLines(s: string): nat {
    if s == [] then 0 else CountLines(s[..|s| - 1]) + (if s[|s| - 1] == LF then 1 else 0)
  }

  /** The characters of a C string that stands at `start` of an array and ends with NUL, from offset
      `from` on. */
  ghost predicate Reads(text: array<char>, start: nat, s: string, from: nat)
    reads text
  {
    && start + |s| < text.Length && text[start + |s|] == NUL && NUL !in s
    && forall k :: from <= k < |s| ==> text[start + k] == s[k]
  }

  lemma StandsIn(text: array<char>, start: nat, s: string, from: nat, k: nat, c: char)
    requires Reads(text, start, s, from) && from <= k <= |s| && c != NUL
    ensures Stands(s, k, c) <==> text[start + k] == c
    ensures k < |s| <==> text[start + k] != NUL
  {
    if k < |s| { assert s[k] in s; }
  }

  lemma CharAt(text: array<char>, start: nat, s: string, from: nat, k: nat)
    requires Reads(text, start, s, from) && from <= k <= |s|
    ensures start + |s| < text.Length && text[start + k] == if k < |s| then s[k] else NUL
    ensures k < |s| ==> s[k] != NUL
  {
    if k < |s| { assert s[k] in s; }
  }

  lemma ReadsFront(text: array<char>, start: nat, front: string, rest: string)
    requires Reads(text, start, front + rest, 0)
    ensures start + |front| < text.Length && text[start..start + |front|] == front && NUL !in front
  {
    var s := front + rest;
    forall k | 0 <= k < |front| ensures text[start + k] == front[k] && front[k] != NUL {
      assert s[k] == front[k] && s[k] in s;
    }
  }

  /** strncmp with a pattern, up to the end of the string. */
  method StrNCmp(text: array<char>, start: nat, k: nat, pattern: string, ghost s: string, ghost from: nat)
    returns (same: bool)
    requires Reads(text, start, s, from) && from <= k <= |s| && NUL !in pattern
    ensures same <==> k + |pattern| <= |s| && s[k..k + |pattern|] == pattern
  {
    for i := 0 to |pattern|
      invariant k + i <= |s| && s[k..k + i] == pattern[..i]
    {
      assert pattern[i] in pattern;
      StandsIn(text, start, s, from, k + i, pattern[i]);
      if text[start + k + i] != pattern[i] {
        assert k + |pattern| <= |s| ==> s[k..k + |pattern|][i] == s[k + i];
        return false;
      }
      assert s[k..k + i + 1] == s[k..k + i] + [s[k + i]];
      assert pattern[..i + 1] == pattern[..i] + [pattern[i]];
    }
    assert pattern[..|pattern|] == pattern;
    same := true;
  }

  method FindEntityIn(text: array<char>, start: nat, p: nat, ghost s: string, ghost from: nat)
    returns (found: Option<nat>)
    requires Reads(text, start, s, from) && from <= p < |s|
    ensures found == FindEntity(s, p, 0)
  {
    hide Table;
    for i := 0 to NUM_ENTITIES
      invariant FindEntity(s, p, 0) == FindEntity(s, p, i)
    {
      var pattern := Table(i).pattern;
      Patterns(i, i);
      var same := StrNCmp(text, start, p + 1, pattern, s, from);
      if same {
        StandsIn(text, start, s, from, p + 1 + |pattern|, ';');
        if text[start + p + 1 + |pattern|] == ';' { return Some(i); }
      }
    }
    found := None;
  }

  method SemicolonIn(text: array<char>, start: nat, p: nat, ghost s: string, ghost from: nat) returns (r: Option<nat>)
    requires Reads(text, start, s, from) && from <= p <= |s|
    ensures r == Semicolon(s, p)
  {
    var q := p;
    StandsIn(text, start, s, from, q, ';');
    while text[start + q] != NUL
      invariant p <= q <= |s| && (q < |s| <==> text[start + q] != NUL)
      invariant Semicolon(s, p) == Semicolon(s, q)
      decreases |s| - q
    {
      StandsIn(text, start, s, from, q, ';');
      if text[start + q] == ';' { return Some(q); }
      q := q + 1;
      StandsIn(text, start, s, from, q, ';');
    }
    r := None;
  }

  function Plus(ucs: nat, rest: Option<nat>): Option<nat> { if rest.Some? then Some(ucs + rest.value) else None }

  method NumberIn(text: array<char>, start: nat, lo: nat, hi: nat, stop: char, base: nat,
                  ghost s: string, ghost from: nat)
    returns (r: Option<nat>)
    requires Reads(text, start, s, from) && from <= lo <= hi <= |s|
    ensures r == Number(s, lo, hi, stop, base, 1)
  {
    var ucs: nat, mult: nat, q := 0, 1, hi;
    while q > lo && text[start + q - 1] != stop
      invariant lo <= q <= hi
      invariant Number(s, lo, hi, stop, base, 1) == Plus(ucs, Number(s, lo, q, stop, base, mult))
    {
      var digit := Digit(text[start + q - 1], base);
      if digit == None { return None; }
      ucs := ucs + mult * digit.value % 0x1_0000_0000;
      mult := mult * base % 0x1_0000_0000;
      q := q - 1;
    }
    r := Some(ucs);
  }

  method CharacterRefIn(text: array<char>, start: nat, p: nat, ghost s: string, ghost from: nat) returns (r: Reference)
    requires Reads(text, start, s, from) && from <= p && p + 1 < |s|
    ensures r == CharacterRef(s, p)
  {
    StandsIn(text, start, s, from, p + 2, 'x');
    if text[start + p + 2] == NUL { return Reference([], p + 1); }
    var hexadecimal := text[start + p + 2] == 'x';
    var first := if hexadecimal then p + 3 else p + 2;
    var end := SemicolonIn(text, start, first, s, from);
    if end == None { return NotOne; }
    var ucs := NumberIn(text, start, first, end.value, if hexadecimal then 'x' else '#',
                        if hexadecimal then 16 else 10, s, from);
    if ucs == None { return NotOne; }
    r := Reference(Utf8(ucs.value), end.value + 1);
  }

  class StrPair {
    const text: array<char>
    var start: nat
    var end: nat
    var flags: Flags
    var collapse: bool
    var needsFlush: bool

    constructor (text: array<char>)
      ensures this.text == text && !needsFlush
    {
      this.text := text;
      start, end, flags, collapse, needsFlush := 0, 0, Flags(false, false), false, false;
    }

    /** ParseText: the text up to the end tag, and the position behind it; `s` is the C string at p. */
    method ParseText(p: nat, endTag: string, strFlags: Flags, collapsing: bool, line: nat, ghost s: string)
      returns (next: Option<nat>, newLine: nat)
      requires Reads(text, p, s, 0) && endTag != [] && NUL !in endTag
      modifies this
      ensures match FindTag(s, 0, endTag)
        case Some(i) =>
          && next == Some(p + i + |endTag|) && start == p && end == p + i && flags == strFlags && needsFlush
          && collapse == collapsing && newLine == line + CountLines(s[..i])
        case None => next == None && unchanged(this)
    {
      hide TagAt;
      var k := 0;
      newLine := line;
      StandsIn(text, p, s, 0, 0, LF);
      while text[p + k] != NUL
        invariant k <= |s| && (k < |s| <==> text[p + k] != NUL)
        invariant FindTag(s, 0, endTag) == FindTag(s, k, endTag)
        invariant newLine == line + CountLines(s[..k])
        invariant unchanged(this)
        decreases |s| - k
      {
        var same := StrNCmp(text, p, k, endTag, s, 0);
        assert same == TagAt(s, k, endTag) by { TagAtIs(s, k, endTag); }
        if text[p + k] == endTag[0] && same {
          start, end, flags, collapse, needsFlush := p, p + k, strFlags, collapsing, true;
          return Some(p + k + |endTag|), newLine;
        }
        if same { TagStarts(s, k, endTag); }
        assert s[..k + 1][..k] == s[..k];
        if text[p + k] == LF { newLine := newLine + 1; }
        k := k + 1;
        StandsIn(text, p, s, 0, k, LF);
      }
      next := None;
    }

    static lemma TagAtIs(s: string, k: nat, endTag: string)
      ensures TagAt(s, k, endTag) <==> endTag != [] && k + |endTag| <= |s| && s[k..k + |endTag|] == endTag
    {
    }

    /** One turn of the loop of GetStr, read at offset p; nothing is written yet. */
    method ReadTurn(p: nat, q: nat, ghost s: string, ghost out: string) returns (written: string, next: nat)
      requires Reads(text, start, s, q) && |out| == q <= p < |s|
      ensures (written, next) == Turn(s, p, out, flags)
    {
      hide CharacterRef, FindEntity, Table;
      var c := text[start + p];
      if flags.newlines && c == CR {
        StandsIn(text, start, s, q, p + 1, LF);
        return [LF], if text[start + p + 1] == LF then p + 2 else p + 1;
      }
      if flags.newlines && c == LF {
        StandsIn(text, start, s, q, p + 1, CR);
        return [LF], if text[start + p + 1] == CR then p + 2 else p + 1;
      }
      if flags.entities && c == '&' {
        StandsIn(text, start, s, q, p + 1, '#');
        if text[start + p + 1] == '#' {
          var reference := CharacterRefIn(text, start, p, s, q);
          if reference == NotOne { return ['&'], p + 1; }
          return reference.bytes, reference.next;
        }
        var i := FindEntityIn(text, start, p, s, q);
        if i.Some? { return [Table(i.value).value], p + |Table(i.value).pattern| + 2; }
        return [text[start + q]], p + 1;  // what stands at the write pointer stays there
      }
      written, next := [c], p + 1;
    }

    /** Writing some characters at offset q, not past the read pointer, which is at `next` then. */
    method Write(q: nat, written: string, next: nat, ghost s: string, ghost out: string)
      requires Reads(text, start, s, q) && q + |written| <= next <= |s| && text[start..start + q] == out
      modifies text
      ensures Reads(text, start, s, q + |written|) && text[start..start + q + |written|] == out + written
      ensures forall k :: 0 <= k < start || start + |s| < k < text.Length ==> text[k] == old(text[k])
    {
      for i := 0 to |written|
        invariant forall k :: 0 <= k < |written| && k < i ==> text[start + q + k] == written[k]
        invariant forall k :: 0 <= k < start + q || start + q + i <= k < text.Length ==> text[k] == old(text[k])
      {
        text[start + q + i] := written[i];
      }
      forall k | 0 <= k < q ensures text[start + k] == out[k] {
        assert text[start + k] == old(text[start..start + q][k]);
      }
      assert text[start..start + q + |written|] == out + written;
    }

    /** The NUL behind what was written. */
    method Terminate(q: nat, ghost out: string)
      requires start + q < text.Length && text[start..start + q] == out
      modifies text
      ensures text[start + q] == NUL && text[start..start + q] == out
      ensures forall k :: 0 <= k < text.Length && k != start + q ==> text[k] == old(text[k])
    {
      text[start + q] := NUL;
    }

    /** The loop of GetStr. The read pointer p is never passed by the write pointer q, so that nothing
        is overwritten before it is read. */
    method UnescapeInPlace(ghost s: string) returns (q: nat)
      requires Reads(text, start, s, 0) && end == start + |s|
      modifies text
      ensures q <= |s| && text[start + q] == NUL && text[start..start + q] == Unescape(s, 0, [], flags)
      ensures forall k :: 0 <= k < start || end < k < text.Length ==> text[k] == old(text[k])
    {
      hide Turn, Unescape;
      var p := 0;
      q := 0;
      ghost var out: string := [];
      while p < end - start
        invariant q == |out| <= p <= |s| && Reads(text, start, s, q) && text[start..start + q] == out
        invariant Unescape(s, 0, [], flags) == Unescape(s, p, out, flags)
        invariant forall k :: 0 <= k < start || end < k < text.Length ==> text[k] == old(text[k])
        decreases |s| - p
      {
        var written, next := ReadTurn(p, q, s, out);
        UnescapeTurn(s, p, out, flags);
        Write(q, written, next, s, out);
        p, q := next, q + |written|;
        out := out + written;
      }
      UnescapeEnd(s, out, flags);
      Terminate(q, out);
    }

    /** SkipWhiteSpace, from offset p of the C string on. */
    method SkipFrom(p: nat, ghost s: string, ghost from: nat) returns (next: nat)
      requires Reads(text, start, s, from) && from <= p <= |s|
      ensures p <= next <= |s| && s[next..] == SkipWhiteSpace(s[p..])
      ensures p < |s| && IsWhiteSpace(s[p]) ==> p < next
    {
      hide Reads, SkipWhiteSpace;
      next := p;
      CharAt(text, start, s, from, p);
      while IsWhiteSpace(text[start + next])
        invariant p <= next <= |s| < text.Length - start && SkipWhiteSpace(s[next..]) == SkipWhiteSpace(s[p..])
        invariant text[start + next] == if next < |s| then s[next] else NUL
        invariant p < |s| && IsWhiteSpace(s[p]) ==> p < next || IsWhiteSpace(text[start + next])
        decreases |s| - next
      {
        SkipOne(s, next);
        next := next + 1;
        CharAt(text, start, s, from, next);
      }
      SkipNone(s, next);
    }

    lemma Later(s: string, k: nat)
      requires Reads(text, start, s, 0) && k <= |s|
      ensures Reads(text, start + k, s[k..], 0)
    {
      forall c | c in s[k..] ensures c in s {}
    }

    /** One turn of its loop, read at offset p; nothing is left when only whitespace was. */
    method SqueezeTurn(p: nat, q: nat, ghost s: string) returns (written: string, next: nat)
      requires Reads(text, start, s, q) && q <= p < |s|
      ensures p < next <= |s| && q + |written| <= next
      ensures Squeezed(s[p..]) == written + Squeezed(s[next..])
    {
      hide Reads, SkipWhiteSpace, Squeezed, IsWhiteSpace;
      CharAt(text, start, s, q, p);
      if !IsWhiteSpace(text[start + p]) {
        SqueezedFrom(s, p, p);
        return [text[start + p]], p + 1;
      }
      next := SkipFrom(p, s, q);
      CharAt(text, start, s, q, next);
      SqueezedFrom(s, p, next);
      if text[start + next] == NUL {
        SqueezedNothing();
        return [], next;
      }
      written, next := [' ', text[start + next]], next + 1;
    }

    method HasChar(p: nat, ghost s: string, ghost from: nat) returns (more: bool)
      requires Reads(text, start, s, from) && from <= p <= |s|
      ensures more <==> p < |s|
    {
      CharAt(text, start, s, from, p);
      more := text[start + p] != NUL;
    }

    lemma Room(s: string, from: nat)
      requires Reads(text, start, s, from)
      ensures start + |s| < text.Length
    {
    }

    /** The loop of CollapseWhitespace, with the write pointer never past the read pointer. */
    method SqueezeInPlace(ghost s: string) returns (q: nat)
      requires Reads(text, start, s, 0)
      modifies text
      ensures q <= |s| && start + |s| < text.Length && text[start + q] == NUL && text[start..start + q] == Squeezed(s)
      ensures forall k :: 0 <= k < start || start + |s| < k < text.Length ==> text[k] == old(text[k])
    {
      hide Reads, SoFar, Squeezed, IsWhiteSpace, SkipWhiteSpace;
      var p := 0;
      q := 0;
      ghost var out: string := [];
      Room(s, 0);
      SoFarStarts(s);
      var more := HasChar(0, s, 0);
      while more
        invariant q == |out| <= p <= |s| && (more <==> p < |s|) && SoFar(s, p, out)
        invariant Reads(text, start, s, q) && text[start..start + q] == out
        invariant forall k :: 0 <= k < start || start + |s| < k < text.Length ==> text[k] == old(text[k])
        decreases |s| - p
      {
        var written, next := SqueezeTurn(p, q, s);
        SoFarGoesOn(s, p, next, out, written);
        Write(q, written, next, s, out);
        p, q := next, q + |written|;
        out := out + written;
        more := HasChar(p, s, q);
      }
      SoFarEnds(s, out);
      Terminate(q, out);
    }

    /** CollapseWhitespace: leading whitespace is skipped, and the rest squeezed where it stands. */
    method CollapseWhitespace(ghost s: string) returns (length: nat)
      requires Reads(text, start, s, 0)
      modifies this`start, text
      ensures old(start) <= start && start + length <= old(start) + |s| && text[start + length] == NUL
      ensures text[start..start + length] == Collapsed(s)
      ensures forall k :: 0 <= k < old(start) || old(start) + |s| < k < text.Length ==> text[k] == old(text[k])
    {
      hide Reads, Collapsed, Squeezed, SkipWhiteSpace, IsWhiteSpace, Words;
      var skipped := SkipFrom(0, s, 0);
      assert s[0..] == s;
      SkippedIsCollapsed(s);
      Later(s, skipped);
      start := start + skipped;
      length := SqueezeInPlace(s[skipped..]);
    }

    /** What stands at the start after GetStr's loop. */
    static ghost function Shown(s: string, flags: Flags, collapse: bool): string {
      if flags == Flags(false, false) && !collapse then s else Unescape(s, 0, [], flags)
    }

    /** GetStr: the first call terminates the text, and unescapes and collapses it where it stands. */
    method GetStr(ghost s: string) returns (length: nat)
      requires needsFlush && start + |s| == end < text.Length && text[start..end] == s && NUL !in s
      modifies this`needsFlush, this`start, text
      ensures !needsFlush && old(start) <= start && start + length <= end && text[start + length] == NUL
      ensures var shown := Shown(s, flags, collapse);
        text[start..start + length] == if collapse then Collapsed(UpToNul(shown)) else shown
      ensures !collapse ==> start == old(start)
      ensures !collapse && flags != Flags(false, false) ==>
        (text[start..start + length] == Kept(s, 0, flags) <==> NoneLost(s, 0, 0, flags))
      ensures forall k :: 0 <= k < old(start) || end < k < text.Length ==> text[k] == old(text[k])
    {
      hide Unescape, Kept, NoneLost, Collapsed, UpToNul, IsWhiteSpace, SkipWhiteSpace, Stray, Piece, Turn;
      StrayAmpersand(s, flags);
      assert forall k :: 0 <= k < |s| ==> text[start + k] == text[start..end][k];
      text[end] := NUL;
      needsFlush := false;
      assert text[start..end] == s;
      if flags == Flags(false, false) && !collapse { return end - start; }
      length := UnescapeInPlace(s);
      if collapse {
        ghost var shown := text[start..start + length];
        StandsUpToNul(length, shown);
        length := CollapseWhitespace(UpToNul(shown));
      }
    }

    lemma StandsUpToNul(length: nat, shown: string)
      requires start + length < text.Length && text[start..start + length] == shown && text[start + length] == NUL
      ensures |UpToNul(shown)| <= length && Reads(text, start, UpToNul(shown), 0)
    {
      var t := UpToNul(shown);
      assert forall k :: 0 <= k < |t| ==> text[start + k] == shown[k] == t[k];
      if |t| < |shown| { assert text[start + |t|] == shown[|t|]; }
    }

    /** Reading back what was printed: text `t`, escaped, with its end tag and anything else after it.
        The text is found, and it is `t` with its line ends normalized. */
    method ReadBack(p: nat, endTag: string, ghost t: string, ghost restricted: bool, ghost rest: string)
      returns (next: Option<nat>, length: nat)
      requires endTag != [] && EntityOf(endTag[0], restricted).Some? && endTag[0] != '&' && NUL !in endTag
      requires Reads(text, p, Escape(t, restricted) + endTag + rest, 0)
      modifies this, text
      ensures next == Some(p + |Escape(t, restricted)| + |endTag|) && p + length < text.Length
      ensures text[p..p + length] == Normalized(t) && text[p + length] == NUL
      ensures text[p..p + length] == t <==> CR !in t
    {
      hide Escape, Unescape, Kept, NoneLost, Normalized, FindTag, EntityOf, CountLines, Reads;
      ghost var escaped := Escape(t, restricted);
      ghost var s := escaped + endTag + rest;
      TextEndsAtTag(t, restricted, endTag, rest);
      var lines;
      next, lines := ParseText(p, endTag, Flags(true, true), false, 0, s);
      assert s == escaped + (endTag + rest);
      ReadsFront(text, p, escaped, endTag + rest);
      length := GetStr(escaped);
      RoundTrip(t, restricted);
    }
  }

  /** PrintString: runs of plain characters between entities. */
  method PrintString(text: string, restricted: bool, buffer: string) returns (out: string)
    ensures out == buffer + Escape(text, restricted)
  {
    hide Table, Escape;
    var p, q := 0, 0;
    out := buffer;
    NothingEscaped(restricted);
    while q < |text|
      invariant p <= q <= |text|
      invariant buffer + Escape(text[..q], restricted) == out + text[p..q]
    {
      EscapePush(text[..q], text[q], restricted);
      assert text[..q + 1] == text[..q] + [text[q]];
      var entity := EntityOf(text[q], restricted);
      ghost var before, escaped := out + text[p..q], EscapeChar(text[q], restricted);
      assert buffer + Escape(text[..q + 1], restricted) == before + escaped;
      if entity.Some? {
        out := out + text[p..q];
        out := out + ("&" + Table(entity.value).pattern + ";");
        p := q + 1;
        assert out + text[p..q + 1] == before + escaped;
      } else {
        assert text[p..q + 1] == text[p..q] + [text[q]];
        assert out + text[p..q + 1] == before + escaped;
      }
      q := q + 1;
    }
    assert text[..|text|] == text;
    if p < q { out := out + text[p..]; }
  }

  lemma NothingEscaped(restricted: bool)
    ensures Escape([], restricted) == []
  {
  }

  lemma {:induction false} EscapePush(text: string, c: char, restricted: bool)
    ensures Escape(text + [c], restricted) == Escape(text, restricted) + EscapeChar(c, restricted)
  {
    if text == [] {
      assert [] + [c] == [c];
    } else {
      assert (text + [c])[0] == text[0] && (text + [c])[1..] == text[1..] + [c];
      EscapePush(text[1..], c, restricted);
    }
  }
}
