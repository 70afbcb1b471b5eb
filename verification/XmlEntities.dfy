/** What entities and character references stand for (src/tinyxml2.cpp): the names of section 4.6 of
    XML 1.0, numbers in the decimal and hexadecimal system, and UTF-8 as in RFC 3629, section 3. */
module XmlEntities {

  import opened Options
  import opened XmlText

  /** Every character and how it is printed. */
  lemma EscapedChars(c: char, restricted: bool)
    ensures EscapeChar('&', restricted) == "&amp;" && EscapeChar('<', restricted) == "&lt;"
    ensures EscapeChar('>', restricted) == "&gt;"
    ensures EscapeChar('\"', false) == "&quot;" && EscapeChar('\'', false) == "&apos;"
    ensures EscapeChar(c, restricted) == [c] <==>
      c !in ['&', '<', '>'] && (restricted || c !in ['\"', '\''])
  {
  }

  /** And what the names stand for, wherever they are read. */
  lemma NamedEntities(s: string, p: nat, i: nat)
    requires p < |s| && FindEntity(s, p, 0) == Some(i)
    ensures i < NUM_ENTITIES && Matches(s, p, Table(i).pattern)
    ensures (Table(i).pattern, Table(i).value) in
      [("amp", '&'), ("lt", '<'), ("gt", '>'), ("quot", '\"'), ("apos", '\'')]
  {
    Found(s, p, 0);
  }

  lemma {:induction false} Found(s: string, p: nat, i: nat)
    requires i <= NUM_ENTITIES && FindEntity(s, p, i).Some?
    ensures var j := FindEntity(s, p, i).value; j < NUM_ENTITIES && Matches(s, p, Table(j).pattern)
    decreases NUM_ENTITIES - i
  {
    hide Matches;
    if i < NUM_ENTITIES && !Matches(s, p, Table(i).pattern) { Found(s, p, i + 1); }
  }

  // ---- Numbers

  predicate AllDigits(digits: string, base: nat) { forall k :: 0 <= k < |digits| ==> Digit(digits[k], base).Some? }

  /** The number that a numeral stands for. */
  function Value(digits: string, base: nat): nat
    requires AllDigits(digits, base)
  {
    if digits == [] then 0
    else Value(digits[..|digits| - 1], base) * base + Digit(digits[|digits| - 1], base).value
  }

  lemma DigitsAre(k: nat)
    requires k < 10
    ensures Digit("0123456789"[k], 10) == Digit("0123456789"[k], 16) == Some(k)
    ensures k < 6 ==> Digit("abcdef"[k], 16) == Digit("ABCDEF"[k], 16) == Some(10 + k)
    ensures k < 6 ==> Digit("abcdef"[k], 10) == None
  {
  }

  /** A scaled digit in a 32-bit word, if it fits. */
  lemma Scaled(mult: nat, scale: nat, d: nat)
    requires mult == scale % 0x1_0000_0000 && scale * d < 0x1_0000_0000
    ensures mult * d % 0x1_0000_0000 == scale * d
  {
    if d > 0 {
      assert scale <= scale * d;
    }
  }

  lemma NextScale(mult: nat, scale: nat, base: nat)
    requires mult == scale % 0x1_0000_0000
    ensures mult * base % 0x1_0000_0000 == scale * base % 0x1_0000_0000
  {
    var q := scale / 0x1_0000_0000;
    assert scale == 0x1_0000_0000 * q + mult;
    assert scale * base == 0x1_0000_0000 * (q * base) + mult * base;
    Multiples(q * base, mult * base);
  }

  lemma Multiples(q: nat, r: nat)
    ensures (0x1_0000_0000 * q + r) % 0x1_0000_0000 == r % 0x1_0000_0000
  {
    var p, t := r / 0x1_0000_0000, r % 0x1_0000_0000;
    assert 0x1_0000_0000 * q + r == 0x1_0000_0000 * (q + p) + t;
  }

  lemma Spread(scale: nat, v: nat, base: nat, d: nat)
    ensures scale * (v * base + d) == (scale * base) * v + scale * d
  {
  }

  lemma LastDigit(s: string, lo: nat, hi: nat, base: nat)
    requires lo < hi <= |s| && AllDigits(s[lo..hi], base)
    ensures Digit(s[hi - 1], base).Some? && AllDigits(s[lo..hi - 1], base)
    ensures Value(s[lo..hi], base) == Value(s[lo..hi - 1], base) * base + Digit(s[hi - 1], base).value
  {
    hide Digit;
    var digits, front := s[lo..hi], s[lo..hi - 1];
    assert digits[hi - lo - 1] == s[hi - 1] && digits[..|digits| - 1] == front;
    forall k | 0 <= k < hi - 1 - lo ensures Digit(front[k], base).Some? { assert front[k] == digits[k]; }
  }

  lemma NoDigits(s: string, lo: nat, base: nat)
    requires lo <= |s|
    ensures Value(s[lo..lo], base) == 0
  {
  }

  /** Reading digits backwards, scaled in 32-bit words, gives the number, if it fits 32 bits. */
  lemma {:induction false} NumberIsValue(s: string, lo: nat, hi: nat, stop: char, base: nat, mult: nat, scale: nat)
    requires lo <= hi <= |s| && mult == scale % 0x1_0000_0000
    requires AllDigits(s[lo..hi], base)
    requires Digit(stop, base) == None && scale * Value(s[lo..hi], base) < 0x1_0000_0000
    ensures Number(s, lo, hi, stop, base, mult) == Some(scale * Value(s[lo..hi], base))
    decreases hi
  {
    hide Digit, Value, AllDigits;
    if lo == hi {
      NoDigits(s, lo, base);
    } else {
      LastDigit(s, lo, hi, base);
      var d, v := Digit(s[hi - 1], base).value, Value(s[lo..hi - 1], base);
      Spread(scale, v, base, d);
      Scaled(mult, scale, d);
      NextScale(mult, scale, base);
      NumberIsValue(s, lo, hi - 1, stop, base, mult * base % 0x1_0000_0000, scale * base);
    }
  }

  lemma {:induction false} SemicolonBehind(s: string, p: nat, end: nat)
    requires p <= end < |s| && s[end] == ';' && forall k :: p <= k < end ==> s[k] != ';'
    ensures Semicolon(s, p) == Some(end)
    decreases end - p
  {
    if p < end { SemicolonBehind(s, p + 1, end); }
  }

  function Mark(hexadecimal: bool): string { if hexadecimal then "&#x" else "&#" }

  /** A character reference stands for the character of its number. */
  lemma ReferenceIs(before: string, hexadecimal: bool, digits: string, rest: string)
    requires var base := if hexadecimal then 16 else 10;
      digits != [] && AllDigits(digits, base) && Value(digits, base) < 0x1_0000_0000
    ensures var base := if hexadecimal then 16 else 10;
      CharacterRef(before + Mark(hexadecimal) + digits + ";" + rest, |before|)
      == Reference(Utf8(Value(digits, base)), |before + Mark(hexadecimal) + digits| + 1)
  {
    hide Value, Number, Utf8, Semicolon;
    var base, stop := if hexadecimal then 16 else 10, if hexadecimal then 'x' else '#';
    var head := before + Mark(hexadecimal);
    var s, lo, hi := head + digits + ";" + rest, |head|, |head + digits|;
    assert s[|before|..lo] == Mark(hexadecimal);
    assert s[|before| + 1] == s[|before|..lo][1] && s[|before| + 2] == (Mark(hexadecimal) + digits + ";")[2];
    assert s[lo..hi] == digits && s[hi] == ';';
    forall k | lo <= k < hi ensures s[k] != ';' {
      assert s[k] == digits[k - lo];
    }
    SemicolonBehind(s, lo, hi);
    NumberIsValue(s, lo, hi, stop, base, 1, 1);
  }

  // ---- UTF-8

  predicate Follows(c: char) { 0x80 as char <= c < 0xC0 as char }

  /** The code point of a sequence of one to four bytes. */
  function CodePoint(bytes: string): Option<nat> {
    if |bytes| == 1 && bytes[0] < 0x80 as char then Some(bytes[0] as nat)
    else if |bytes| == 2 && 0xC0 as char <= bytes[0] < 0xE0 as char && Follows(bytes[1]) then
      Some((bytes[0] as nat - 0xC0) * 0x40 + (bytes[1] as nat - 0x80))
    else if |bytes| == 3 && 0xE0 as char <= bytes[0] < 0xF0 as char && Follows(bytes[1]) && Follows(bytes[2]) then
      Some((bytes[0] as nat - 0xE0) * 0x1000 + (bytes[1] as nat - 0x80) * 0x40 + (bytes[2] as nat - 0x80))
    else if |bytes| == 4 && 0xF0 as char <= bytes[0] < 0xF8 as char
      && Follows(bytes[1]) && Follows(bytes[2]) && Follows(bytes[3]) then
      Some((bytes[0] as nat - 0xF0) * 0x4_0000 + (bytes[1] as nat - 0x80) * 0x1000
           + (bytes[2] as nat - 0x80) * 0x40 + (bytes[3] as nat - 0x80))
    else None
  }

  /** The bytes written for a number are those of its code point, and no more than it needs. */
  lemma Utf8Decodes(ucs: nat)
    requires ucs < 0x20_0000
    ensures CodePoint(Utf8(ucs)) == Some(ucs)
    ensures |Utf8(ucs)| == if ucs < 0x80 then 1 else if ucs < 0x800 then 2 else if ucs < 0x1_0000 then 3 else 4
  {
    var a, b := ucs / 64, ucs / 4096;
    assert a / 64 == b && b / 64 == ucs / 0x4_0000;
    assert ucs == 64 * a + ucs % 64 && a == 64 * b + a % 64 && b == 64 * (b / 64) + b % 64;
  }

  /** For instance, in any text: both references show the letter A. */
  lemma LetterA(before: string, rest: string)
    ensures CharacterRef(before + "&#" + "65" + ";" + rest, |before|) == Reference("A", |before| + 5)
    ensures CharacterRef(before + "&#x" + "41" + ";" + rest, |before|) == Reference("A", |before| + 6)
  {
    assert "65"[..1] == "6" && "6"[..0] == "" && "41"[..1] == "4" && "4"[..0] == "";
    assert Value("6", 10) == 6 && Value("65", 10) == 65 && Value("4", 16) == 4 && Value("41", 16) == 65;
    ReferenceIs(before, false, "65", rest);
    ReferenceIs(before, true, "41", rest);
  }

  // ---- In a text

  predicate Plain(text: string) { '&' !in text && CR !in text && LF !in text }

  /** Plain text in front is shown as it is. */
  lemma {:induction false} PlainFront(s: string, p: nat, n: nat, flags: Flags)
    requires p <= n <= |s| && Plain(s[..n])
    ensures Unescape(s, 0, [], flags) == Unescape(s, n, s[..n], flags)
      <== Unescape(s, 0, [], flags) == Unescape(s, p, s[..p], flags)
    decreases n - p
  {
    hide Turn, Unescape;
    if p < n {
      PlainTurn(s, p, n, flags);
      UnescapeTurn(s, p, s[..p], flags);
      assert s[..p] + [s[p]] == s[..p + 1];
      PlainFront(s, p + 1, n, flags);
    }
  }

  lemma PlainTurn(s: string, p: nat, n: nat, flags: Flags)
    requires p < n <= |s| && Plain(s[..n])
    ensures Turn(s, p, s[..p], flags) == ([s[p]], p + 1)
  {
    assert s[p] == s[..n][p] && s[p] in s[..n];
  }

  /** What is written at an ampersand stays. */
  lemma ShownBehind(s: string, n: nat, flags: Flags, shown: string, next: nat)
    requires n < |s| && Plain(s[..n]) && Turn(s, n, s[..n], flags) == (shown, next)
    ensures s[..n] + shown <= Unescape(s, 0, [], flags)
  {
    hide Turn, Unescape;
    assert s[..0] == [];
    PlainFront(s, 0, n, flags);
    UnescapeTurn(s, n, s[..n], flags);
    UnescapeExtends(s, next, s[..n] + shown, flags);
  }

  /** Behind plain text a character reference shows its character. */
  lemma ReferenceShown(before: string, hexadecimal: bool, digits: string, rest: string, newlines: bool)
    requires var base := if hexadecimal then 16 else 10;
      digits != [] && AllDigits(digits, base) && Value(digits, base) < 0x1_0000_0000
    requires Plain(before)
    ensures var base := if hexadecimal then 16 else 10;
      before + Utf8(Value(digits, base))
      <= Unescape(before + Mark(hexadecimal) + digits + ";" + rest, 0, [], Flags(true, newlines))
  {
    hide CharacterRef, Utf8, Value, Unescape;
    var s, n := before + Mark(hexadecimal) + digits + ";" + rest, |before|;
    ReferenceIs(before, hexadecimal, digits, rest);
    assert s[..n] == before && s[n] == '&' && s[n + 1] == '#';
    var (shown, next) := Turn(s, n, s[..n], Flags(true, newlines));
    ShownBehind(s, n, Flags(true, newlines), shown, next);
  }

  /** And so does the entity of any of the five characters. */
  lemma EntityShown(before: string, c: char, rest: string, newlines: bool)
    requires Plain(before) && c in ['&', '<', '>', '\"', '\'']
    ensures before + [c] <= Unescape(before + EscapeChar(c, false) + rest, 0, [], Flags(true, newlines))
  {
    hide Unescape, Table, FindEntity, Matches;
    var s, n := before + EscapeChar(c, false) + rest, |before|;
    var i := EntityOf(c, false).value;
    assert s[n..] == EscapeChar(c, false) + rest && s[..n] == before;
    Patterns(i, i);
    PatternStands(s, n, Table(i).pattern, rest);
    assert Table(i).pattern[0] in Table(i).pattern;
    EntityIsFound(s, n, i);
    var (shown, next) := Turn(s, n, s[..n], Flags(true, newlines));
    ShownBehind(s, n, Flags(true, newlines), shown, next);
  }
}
