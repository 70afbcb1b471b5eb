/** Escaping and unescaping of text in the bundled XML library (src/tinyxml2.cpp), as functions on
    strings; the five predefined entities are those of section 4.6 of XML 1.0. Characters are
    bytes; a C string has no NUL, and reading at its end gives NUL. */
module XmlText {

  import opened Options

  const NUL: char := 0 as char
  const LF: char := 10 as char
  const CR: char := 13 as char

  datatype Entity = Entity(pattern: string, value: char)

  const NUM_ENTITIES: nat := 5

  function Table(i: nat): Entity
    requires i < NUM_ENTITIES
  {
    match i
    case 0 => Entity("quot", '\"')
    case 1 => Entity("amp", '&')
    case 2 => Entity("apos", '\'')
    case 3 => Entity("lt", '<')
    case _ => Entity("gt", '>')
  }

  /** Patterns are letters, and their first two letters tell them apart. */
  lemma Patterns(i: nat, j: nat)
    requires i < NUM_ENTITIES && j < NUM_ENTITIES
    ensures var a, b := Table(i).pattern, Table(j).pattern;
      && |a| >= 2 && |b| >= 2
      && (forall c :: c in a ==> 'a' <= c <= 'z')
      && (i != j ==> a[0] != b[0] || a[1] != b[1])
  {
  }

  // ---- Escaping

  /** The entity for a character: all five, or only three in restricted text. */
  function EntityOf(c: char, restricted: bool): (i: Option<nat>)
    ensures i.Some? ==> i.value < NUM_ENTITIES && Table(i.value).value == c
  {
    if c == '&' then Some(1)
    else if c == '<' then Some(3)
    else if c == '>' then Some(4)
    else if !restricted && c == '\"' then Some(0)
    else if !restricted && c == '\'' then Some(2)
    else None
  }

  function EscapeChar(c: char, restricted: bool): string {
    match EntityOf(c, restricted)
    case Some(i) => "&" + Table(i).pattern + ";"
    case None => [c]
  }

  function Escape(text: string, restricted: bool): string {
    if text == [] then [] else EscapeChar(text[0], restricted) + Escape(text[1..], restricted)
  }

  // ---- Character references

  /** What is made of a character reference: nothing, or some bytes and the position after it. */
  datatype Reference = NotOne | Reference(bytes: string, next: nat)

  function Digit(c: char, base: nat): Option<nat> {
    if '0' <= c <= '9' then Some(c as int - '0' as int)
    else if base == 16 && 'a' <= c <= 'f' then Some(c as int - 'a' as int + 10)
    else if base == 16 && 'A' <= c <= 'F' then Some(c as int - 'A' as int + 10)
    else None
  }

  /** The number of the digits before position hi, last digit first and in 32-bit products, back to
      position lo or to a character `stop`; None if something else is among them. */
  function Number(s: string, lo: nat, hi: nat, stop: char, base: nat, mult: nat): Option<nat>
    requires lo <= hi <= |s|
    decreases hi
  {
    if hi == lo || s[hi - 1] == stop then Some(0)
    else
      match Digit(s[hi - 1], base)
      case None => None
      case Some(d) =>
        match Number(s, lo, hi - 1, stop, base, mult * base % 0x1_0000_0000)
        case None => None
        case Some(n) => Some(mult * d % 0x1_0000_0000 + n)
  }

  /** ConvertUTF32ToUTF8. */
  function Utf8(ucs: nat): (bytes: string)
    ensures |bytes| <= 4 && (ucs < 0x80 ==> |bytes| == 1)
  {
    if ucs < 0x80 then [ucs as char]
    else if ucs < 0x800 then [(ucs / 64 + 0xC0) as char, Tail(ucs)]
    else if ucs < 0x1_0000 then [(ucs / 4096 + 0xE0) as char, Tail(ucs / 64), Tail(ucs)]
    else if ucs < 0x20_0000 then [(ucs / 0x4_0000 + 0xF0) as char, Tail(ucs / 4096), Tail(ucs / 64), Tail(ucs)]
    else []
  }

  function Tail(n: nat): char { (n % 64 + 0x80) as char }

  /** strchr for the semicolon, from position p on. */
  function Semicolon(s: string, p: nat): (r: Option<nat>)
    ensures r.Some? ==> p <= r.value < |s| && s[r.value] == ';'
    decreases |s| - p
  {
    if p >= |s| then None else if s[p] == ';' then Some(p) else Semicolon(s, p + 1)
  }

  /** GetCharacterRef at the ampersand at p, which a `#` follows. */
  function CharacterRef(s: string, p: nat): (r: Reference)
    requires p + 1 < |s|
    ensures r.Reference? ==> p < r.next <= |s| && p + |r.bytes| <= r.next
  {
    if p + 2 >= |s| then Reference([], p + 1)
    else
      var hexadecimal := s[p + 2] == 'x';
      var first := if hexadecimal then p + 3 else p + 2;
      match Semicolon(s, first)
      case None => NotOne
      case Some(end) =>
        match Number(s, first, end, if hexadecimal then 'x' else '#', if hexadecimal then 16 else 10, 1)
        case None => NotOne
        case Some(ucs) => Reference(Utf8(ucs), end + 1)
  }

  // ---- Unescaping

  predicate Matches(s: string, p: nat, pattern: string) {
    p + |pattern| + 1 < |s| && s[p + 1..p + 1 + |pattern|] == pattern && s[p + 1 + |pattern|] == ';'
  }

  /** The first entity of the table, from entry i on, that stands at p. */
  function FindEntity(s: string, p: nat, i: nat): (r: Option<nat>)
    requires i <= NUM_ENTITIES
    ensures r.Some? ==> i <= r.value < NUM_ENTITIES && Matches(s, p, Table(r.value).pattern)
    ensures forall j :: i <= j < (if r.Some? then r.value else NUM_ENTITIES) ==> !Matches(s, p, Table(j).pattern)
    decreases NUM_ENTITIES - i
  {
    if i == NUM_ENTITIES then None else if Matches(s, p, Table(i).pattern) then Some(i) else FindEntity(s, p, i + 1)
  }

  predicate Stands(s: string, p: nat, c: char) { p < |s| && s[p] == c }

  datatype Flags = Flags(entities: bool, newlines: bool)

  /** An ampersand that starts neither a character reference nor an entity of the table. */
  predicate Stray(s: string, p: nat, flags: Flags)
    requires p < |s|
  {
    flags.entities && s[p] == '&' && !Stands(s, p + 1, '#') && FindEntity(s, p, 0).None?
  }

  /** What stands at position p: the characters it is to become, and the position after it. */
  function Piece(s: string, p: nat, flags: Flags): (r: (string, nat))
    requires p < |s|
    ensures p < r.1 <= |s| && p + |r.0| <= r.1
  {
    if flags.newlines && s[p] == CR then
      ([LF], if Stands(s, p + 1, LF) then p + 2 else p + 1)
    else if flags.newlines && s[p] == LF then
      ([LF], if Stands(s, p + 1, CR) then p + 2 else p + 1)
    else if flags.entities && s[p] == '&' then
      if Stands(s, p + 1, '#') then
        match CharacterRef(s, p)
        case NotOne => (['&'], p + 1)
        case Reference(bytes, next) => (bytes, next)
      else
        match FindEntity(s, p, 0)
        case Some(i) => ([Table(i).value], p + |Table(i).pattern| + 2)
        case None => (['&'], p + 1)
    else
      ([s[p]], p + 1)
  }

  /** One turn of the loop of GetStr at position p, with `out` written so far: what is written, and
      the next position. At a stray ampersand the write pointer is moved without writing, so that
      the character shown is the one the string had at the write position. */
  function Turn(s: string, p: nat, out: string, flags: Flags): (r: (string, nat))
    requires |out| <= p < |s|
    ensures p < r.1 <= |s| && |out| + |r.0| <= r.1
  {
    if Stray(s, p, flags) then ([s[|out|]], p + 1) else Piece(s, p, flags)
  }

  function Unescape(s: string, p: nat, out: string, flags: Flags): (r: string)
    requires |out| <= p <= |s|
    ensures |r| <= |s|
    decreases |s| - p
  {
    if p == |s| then out
    else
      var (written, next) := Turn(s, p, out, flags);
      Unescape(s, next, out + written, flags)
  }

  lemma UnescapeTurn(s: string, p: nat, out: string, flags: Flags)
    requires |out| <= p < |s|
    ensures var (written, next) := Turn(s, p, out, flags);
      Unescape(s, p, out, flags) == Unescape(s, next, out + written, flags)
  {
  }

  lemma UnescapeEnd(s: string, out: string, flags: Flags)
    requires |out| <= |s|
    ensures Unescape(s, |s|, out, flags) == out
  {
  }

  // ---- Round trip

  /** What newline normalization makes of plain text. */
  function Normalized(text: string): string {
    if text == [] then []
    else if text[0] == CR then [LF] + Normalized(if Stands(text, 1, LF) then text[2..] else text[1..])
    else if text[0] == LF then [LF] + Normalized(if Stands(text, 1, CR) then text[2..] else text[1..])
    else [text[0]] + Normalized(text[1..])
  }

  lemma {:induction false} NormalizedLine(line: string, rest: string)
    requires CR !in line && LF !in line
    ensures Normalized(line + rest) == line + Normalized(rest)
    decreases |line|
  {
    if line == [] {
      assert line + rest == rest && [] + Normalized(rest) == Normalized(rest);
    } else {
      assert (line + rest)[1..] == line[1..] + rest && line[0] in line;
      NormalizedLine(line[1..], rest);
      assert [line[0]] + (line[1..] + Normalized(rest)) == line + Normalized(rest);
    }
  }

  /** Lines stay as they are, and each of the four line ends becomes a line feed. */
  lemma LineEnds(line: string, rest: string)
    requires CR !in line && LF !in line
    ensures Normalized(line) == line
    ensures Normalized(line + [CR, LF] + rest) == Normalized(line + [LF, CR] + rest) == line + [LF] + Normalized(rest)
    ensures !Stands(rest, 0, LF) ==> Normalized(line + [CR] + rest) == line + [LF] + Normalized(rest)
    ensures !Stands(rest, 0, CR) ==> Normalized(line + [LF] + rest) == line + [LF] + Normalized(rest)
  {
    NormalizedLine(line, []);
    assert line + [] == line;
    LineEnd(line, [CR, LF], rest);
    LineEnd(line, [LF, CR], rest);
    if !Stands(rest, 0, LF) { LineEnd(line, [CR], rest); }
    if !Stands(rest, 0, CR) { LineEnd(line, [LF], rest); }
  }

  lemma LineEnd(line: string, end: string, rest: string)
    requires CR !in line && LF !in line
    requires end in [[CR, LF], [LF, CR], [CR], [LF]]
    requires end == [CR] ==> !Stands(rest, 0, LF)
    requires end == [LF] ==> !Stands(rest, 0, CR)
    ensures Normalized(line + end + rest) == line + [LF] + Normalized(rest)
  {
    assert line + end + rest == line + (end + rest);
    NormalizedLine(line, end + rest);
    assert |end| == 2 ==> (end + rest)[2..] == rest;
    assert |end| == 1 ==> (end + rest)[1..] == rest;
    assert line + ([LF] + Normalized(rest)) == line + [LF] + Normalized(rest);
  }

  /** Normalization leaves text alone if and only if there is no carriage return in it. */
  lemma {:induction false} NormalizedIsSame(text: string)
    ensures CR !in Normalized(text)
    ensures Normalized(text) == text <==> CR !in text
    decreases |text|
  {
    if text != [] {
      if text[0] == CR {
        NormalizedIsSame(if Stands(text, 1, LF) then text[2..] else text[1..]);
      } else if text[0] == LF && Stands(text, 1, CR) {
        NormalizedIsSame(text[2..]);
      } else {
        NormalizedIsSame(text[1..]);
        assert text == [text[0]] + text[1..];
      }
      if Normalized(text) == text { assert CR !in text; }
    }
  }

  lemma MatchesStarts(s: string, p: nat, pattern: string)
    requires Matches(s, p, pattern) && |pattern| >= 2
    ensures s[p + 1] == pattern[0] && s[p + 2] == pattern[1]
  {
    assert s[p + 1..p + 1 + |pattern|][0] == s[p + 1] && s[p + 1..p + 1 + |pattern|][1] == s[p + 2];
  }

  /** The table entry whose entity stands at p is the one that is found. */
  lemma EntityIsFound(s: string, p: nat, i: nat)
    requires i < NUM_ENTITIES && Matches(s, p, Table(i).pattern)
    ensures FindEntity(s, p, 0) == Some(i)
  {
    hide Table, Matches;
    var found := FindEntity(s, p, 0);
    Patterns(i, i);
    MatchesStarts(s, p, Table(i).pattern);
    if found.Some? {
      Patterns(found.value, i);
      MatchesStarts(s, p, Table(found.value).pattern);
    }
  }

  lemma PatternStands(s: string, p: nat, pattern: string, tail: string)
    requires p <= |s| && s[p..] == "&" + pattern + ";" + tail && pattern != []
    ensures Matches(s, p, pattern) && s[p] == '&' && s[p + 1] == pattern[0] && s[p + |pattern| + 2..] == tail
  {
    var n := |pattern|;
    assert s[p] == s[p..][0] && s[p + 1] == s[p..][1];
    assert s[p + 1..p + 1 + n] == s[p..][1..1 + n] == pattern;
    assert s[p + 1 + n] == s[p..][1 + n];
    assert s[p + n + 2..] == s[p..][n + 2..] == tail;
  }

  /** A character that was escaped as an entity. */
  lemma TurnEntity(s: string, p: nat, out: string, c: char, restricted: bool, tail: string)
    requires |out| <= p <= |s| && s[p..] == EscapeChar(c, restricted) + tail && EntityOf(c, restricted).Some?
    ensures p < |s|
    ensures var (written, next) := Turn(s, p, out, Flags(true, true));
      written == [c] && s[next..] == tail
  {
    hide Table, FindEntity, Matches;
    var i := EntityOf(c, restricted).value;
    var pattern := Table(i).pattern;
    Patterns(i, i);
    PatternStands(s, p, pattern, tail);
    assert pattern[0] in pattern;
    EntityIsFound(s, p, i);
  }

  /** A character that was not escaped: line ends are normalized together with a second character. */
  lemma TurnPlain(s: string, p: nat, out: string, c: char, tail: string)
    requires |out| <= p <= |s| && s[p..] == [c] + tail && c != '&'
    ensures p < |s|
    ensures Turn(s, p, out, Flags(true, true))
         == if c == CR then ([LF], if Stands(tail, 0, LF) then p + 2 else p + 1)
            else if c == LF then ([LF], if Stands(tail, 0, CR) then p + 2 else p + 1)
            else ([c], p + 1)
    ensures s[p + 1..] == tail
  {
    assert s[p] == s[p..][0] == c && s[p + 1..] == s[p..][1..] == tail;
    assert tail != [] ==> s[p + 1] == s[p + 1..][0] == tail[0];
  }

  /** Escaped text starts with a line end exactly when the text does, and then goes on after it. */
  lemma EscapeStarts(text: string, restricted: bool, c: char)
    requires c == LF || c == CR
    ensures Stands(Escape(text, restricted), 0, c) <==> Stands(text, 0, c)
    ensures Stands(text, 0, c) ==> Escape(text, restricted)[1..] == Escape(text[1..], restricted)
  {
    hide Table;
  }

  /** The first character of normalized text, and the text that is normalized after it. */
  function Head(text: string): char
    requires text != []
  {
    if text[0] == CR then LF else text[0]
  }

  function Behind(text: string): string
    requires text != []
  {
    if (text[0] == CR && Stands(text, 1, LF)) || (text[0] == LF && Stands(text, 1, CR)) then text[2..] else text[1..]
  }

  lemma NormalizedStep(text: string)
    requires text != []
    ensures Normalized(text) == [Head(text)] + Normalized(Behind(text))
  {
  }

  /** One turn on escaped text. */
  lemma TurnEscaped(s: string, p: nat, out: string, text: string, restricted: bool)
    requires |out| <= p <= |s| && s[p..] == Escape(text, restricted) && text != []
    ensures p < |s|
    ensures var (written, next) := Turn(s, p, out, Flags(true, true));
      written == [Head(text)] && s[next..] == Escape(Behind(text), restricted)
  {
    hide Turn, EscapeChar, Normalized;
    var c, tail := text[0], Escape(text[1..], restricted);
    if EntityOf(c, restricted).Some? {
      TurnEntity(s, p, out, c, restricted, tail);
    } else {
      PlainStands(c, restricted);
      TurnPlain(s, p, out, c, tail);
      EscapeStarts(text[1..], restricted, LF);
      EscapeStarts(text[1..], restricted, CR);
      if |Behind(text)| < |text| - 1 {
        assert s[p + 2..] == s[p + 1..][1..] && text[1..][1..] == text[2..];
      }
    }
  }

  /** Unescaping from p on what was escaped appends the text, normalized. */
  lemma {:induction false} UnescapeEscaped(s: string, p: nat, out: string, text: string, restricted: bool)
    requires |out| <= p <= |s| && s[p..] == Escape(text, restricted)
    ensures Unescape(s, p, out, Flags(true, true)) == out + Normalized(text)
    decreases |text|
  {
    hide Turn, EscapeChar;
    if text == [] {
      assert out + [] == out;
    } else {
      hide Escape, Normalized, Head;
      TurnEscaped(s, p, out, text, restricted);
      NormalizedStep(text);
      var (written, next) := Turn(s, p, out, Flags(true, true));
      UnescapeEscaped(s, next, out + written, Behind(text), restricted);
      assert out + written + Normalized(Behind(text)) == out + (written + Normalized(Behind(text)));
    }
  }

  lemma PlainStands(c: char, restricted: bool)
    requires EntityOf(c, restricted).None?
    ensures EscapeChar(c, restricted) == [c] && c != '&'
  {
  }

  /** Round trip: unescaping what was escaped, with all entities or only three, gives the text with
      its line ends normalized; so the text itself exactly when it has no carriage return. */
  lemma RoundTrip(text: string, restricted: bool)
    ensures Unescape(Escape(text, restricted), 0, [], Flags(true, true)) == Normalized(text)
    ensures Unescape(Escape(text, restricted), 0, [], Flags(true, true)) == text <==> CR !in text
  {
    hide Escape, Unescape, Normalized;
    UnescapeEscaped(Escape(text, restricted), 0, [], text, restricted);
    assert [] + Normalized(text) == Normalized(text);
    NormalizedIsSame(text);
  }

  // ---- Stray ampersands

  /** What unescaping is for: every piece of the string as it is to become, stray ampersands kept. */
  function Kept(s: string, p: nat, flags: Flags): string
    requires p <= |s|
    decreases |s| - p
  {
    if p == |s| then [] else Piece(s, p, flags).0 + Kept(s, Piece(s, p, flags).1, flags)
  }

  /** At every stray ampersand from p on the string has an ampersand also at the write position,
      which is as many characters from its start as the pieces before became; `q` of them before p. */
  predicate NoneLost(s: string, p: nat, q: nat, flags: Flags)
    requires q <= p <= |s|
    decreases |s| - p
  {
    p == |s| ||
    ((Stray(s, p, flags) ==> s[q] == '&')
     && NoneLost(s, Piece(s, p, flags).1, q + |Piece(s, p, flags).0|, flags))
  }

  lemma {:induction false} UnescapeExtends(s: string, p: nat, out: string, flags: Flags)
    requires |out| <= p <= |s|
    ensures out <= Unescape(s, p, out, flags)
    decreases |s| - p
  {
    hide Turn;
    if p < |s| {
      var (written, next) := Turn(s, p, out, flags);
      UnescapeExtends(s, next, out + written, flags);
    }
  }

  /** One turn against one piece: they differ only where a stray ampersand is lost. */
  lemma KeptTurn(s: string, p: nat, out: string, flags: Flags)
    requires |out| <= p < |s|
    ensures var (written, next) := Turn(s, p, out, flags);
      var piece := Piece(s, p, flags).0;
      && Kept(s, p, flags) == piece + Kept(s, next, flags)
      && (NoneLost(s, p, |out|, flags) <==> written == piece && NoneLost(s, next, |out| + |piece|, flags))
      && (written != piece ==> |written| == |piece| == 1 && written[0] != piece[0])
  {
    hide Piece, Stray;
    StrayPiece(s, p, flags);
  }

  lemma StrayPiece(s: string, p: nat, flags: Flags)
    requires p < |s|
    ensures Stray(s, p, flags) ==> Piece(s, p, flags) == (['&'], p + 1)
  {
  }

  lemma Differ(shown: string, out: string, written: string, piece: string, rest: string)
    requires out + written <= shown && |written| == |piece| == 1 && written[0] != piece[0]
    ensures shown != out + piece + rest
  {
    assert shown[|out|] == (out + written)[|out|] == written[0] && (out + piece + rest)[|out|] == piece[0];
  }

  /** From any position: what is shown is what unescaping is for exactly when no stray ampersand is lost. */
  lemma {:induction false} KeptExactly(s: string, p: nat, out: string, flags: Flags)
    requires |out| <= p <= |s|
    ensures Unescape(s, p, out, flags) == out + Kept(s, p, flags) <==> NoneLost(s, p, |out|, flags)
    decreases |s| - p
  {
    hide Piece, Unescape, Kept, NoneLost, Turn;
    if p == |s| {
      KeptEnd(s, out, flags);
    } else {
      var (written, next) := Turn(s, p, out, flags);
      var piece, rest := Piece(s, p, flags).0, Kept(s, next, flags);
      KeptTurn(s, p, out, flags);
      UnescapeTurn(s, p, out, flags);
      Associative(out, piece, rest);
      if written == piece {
        KeptExactly(s, next, out + written, flags);
      } else {
        UnescapeExtends(s, next, out + written, flags);
        Differ(Unescape(s, p, out, flags), out, written, piece, rest);
      }
    }
  }

  lemma KeptEnd(s: string, out: string, flags: Flags)
    requires |out| <= |s|
    ensures Unescape(s, |s|, out, flags) == out + Kept(s, |s|, flags) && NoneLost(s, |s|, |out|, flags)
  {
    assert out + [] == out;
  }

  lemma Associative(a: string, b: string, c: string)
    ensures a + (b + c) == a + b + c
  {
  }

  /** Every string: GetStr shows each stray ampersand if and only if the string has an ampersand at
      each write position at which it comes to one. */
  lemma StrayAmpersand(s: string, flags: Flags)
    ensures Unescape(s, 0, [], flags) == Kept(s, 0, flags) <==> NoneLost(s, 0, 0, flags)
  {
    KeptExactly(s, 0, [], flags);
    assert [] + Kept(s, 0, flags) == Kept(s, 0, flags);
  }

  /** Stray ampersands come before anything that gets shorter: an entity, a character reference, or
      a line end of two characters. */
  predicate StrayFirst(s: string, p: nat, flags: Flags, shorter: bool)
    requires p <= |s|
    decreases |s| - p
  {
    p == |s| ||
    var (piece, next) := Piece(s, p, flags);
    (shorter ==> !Stray(s, p, flags)) && StrayFirst(s, next, flags, shorter || p + |piece| < next)
  }

  /** That is enough for all of them to be shown. */
  lemma {:induction false} StrayFirstIsKept(s: string, p: nat, q: nat, flags: Flags, shorter: bool)
    requires q <= p <= |s| && (q < p ==> shorter) && StrayFirst(s, p, flags, shorter)
    ensures NoneLost(s, p, q, flags)
    decreases |s| - p
  {
    if p < |s| {
      hide Piece;
      var (piece, next) := Piece(s, p, flags);
      StrayFirstIsKept(s, next, q + |piece|, flags, shorter || p + |piece| < next);
    }
  }

  lemma StrayFirstIsShown(s: string, flags: Flags)
    requires StrayFirst(s, 0, flags, false)
    ensures Unescape(s, 0, [], flags) == Kept(s, 0, flags)
  {
    StrayFirstIsKept(s, 0, 0, flags, false);
    StrayAmpersand(s, flags);
  }

  /** So it can show something else: in `&lt;&z` the second ampersand shows as the `l` at offset 1. */
  lemma StrayAmpersandExample()
    ensures Unescape("&lt;&z", 0, [], Flags(true, true)) == "<lz"
  {
    var s := "&lt;&z";
    assert s[1..3] == "lt";
    assert Matches(s, 0, "lt");
    assert !Matches(s, 0, "quot") && !Matches(s, 0, "amp") && !Matches(s, 0, "apos");
    assert Turn(s, 0, [], Flags(true, true)) == ("<", 4);
    assert forall j :: 0 <= j < NUM_ENTITIES ==> !Matches(s, 4, Table(j).pattern);
    assert Turn(s, 4, "<", Flags(true, true)) == ("l", 5);
    assert Turn(s, 5, "<l", Flags(true, true)) == ("z", 6);
    assert [] + "<" == "<" && "<" + "l" == "<l" && "<l" + "z" == "<lz";
    assert Unescape(s, 5, "<l", Flags(true, true)) == Unescape(s, 6, "<lz", Flags(true, true)) == "<lz";
    assert Unescape(s, 4, "<", Flags(true, true)) == Unescape(s, 5, "<l", Flags(true, true));
  }

  // ---- Finding the end of the text

  /** Where the end tag first stands. */
  function FindTag(s: string, p: nat, endTag: string): (r: Option<nat>)
    ensures r.Some? ==> p <= r.value < |s| && TagAt(s, r.value, endTag)
    ensures forall i :: p <= i < (if r.Some? then r.value else |s|) ==> !TagAt(s, i, endTag)
    decreases |s| - p
  {
    if p >= |s| then None else if TagAt(s, p, endTag) then Some(p) else FindTag(s, p + 1, endTag)
  }

  predicate TagAt(s: string, p: nat, endTag: string) {
    endTag != [] && p + |endTag| <= |s| && s[p..p + |endTag|] == endTag
  }

  lemma TagStarts(s: string, p: nat, endTag: string)
    requires TagAt(s, p, endTag)
    ensures s[p] == endTag[0]
  {
    assert s[p..p + |endTag|][0] == s[p];
  }

  /** A character that is escaped, other than the ampersand, does not stand in escaped text. */
  lemma {:induction false} EscapedIsGone(text: string, restricted: bool, c: char)
    requires EntityOf(c, restricted).Some? && c != '&'
    ensures c !in Escape(text, restricted)
  {
    hide Table, EscapeChar;
    if text != [] {
      EscapedIsGone(text[1..], restricted, c);
      EscapedCharIsGone(text[0], restricted, c);
    }
  }

  lemma EscapedCharIsGone(d: char, restricted: bool, c: char)
    requires EntityOf(c, restricted).Some? && c != '&'
    ensures c !in EscapeChar(d, restricted)
  {
    hide Table;
    if EntityOf(d, restricted).Some? {
      Patterns(EntityOf(d, restricted).value, 0);
    }
  }

  /** So the text ends where it was meant to: at the tag after it, if that starts with such a character. */
  lemma TextEndsAtTag(text: string, restricted: bool, endTag: string, rest: string)
    requires endTag != [] && EntityOf(endTag[0], restricted).Some? && endTag[0] != '&'
    ensures FindTag(Escape(text, restricted) + endTag + rest, 0, endTag) == Some(|Escape(text, restricted)|)
  {
    hide Escape, EntityOf, TagAt;
    var escaped := Escape(text, restricted);
    var s := escaped + endTag + rest;
    EscapedIsGone(text, restricted, endTag[0]);
    assert TagAt(s, |escaped|, endTag) by { TagAfter(escaped, endTag, rest); }
    forall i | 0 <= i < |escaped| ensures s[i] != endTag[0] {
      assert s[i] == escaped[i] && escaped[i] in escaped;
    }
    TagStarts(s, FindTag(s, 0, endTag).value, endTag);
  }

  lemma TagAfter(front: string, endTag: string, rest: string)
    requires endTag != []
    ensures TagAt(front + endTag + rest, |front|, endTag)
  {
    assert (front + endTag + rest)[|front|..|front| + |endTag|] == endTag;
  }
}
