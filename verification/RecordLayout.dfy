/** The bytes of a record, position by position and value by value (src/Template.hpp,
    src/FieldInstructionInteger.hpp, src/FieldInstructionString.hpp): what Compressor and Records
    write, said without their own functions. */
module RecordLayout {

  import opened Options
  import opened HostMemory
  import opened Words
  import opened WireFormat
  import opened Compressor
  import opened Records
  import Runs = ContextRuns

  /** The number in an integer field. */
  function Number(v: Value): int
    requires !v.Str?
  {
    match v
    case Int64(x) => x
    case Uint64(x) => x
    case Uint32(x) => x
  }

  /** How many numbers a field can hold. */
  function Range(kind: Kind): nat { if kind == UINT32 then TWO32 else TWO64 }

  // ---- Varints tell their number

  lemma VarintTells(a: nat, b: nat)
    requires Varint(a) == Varint(b)
    ensures a == b
  {
    hide Varint, Parse;
    ParseVarint(a, [], |Varint(a)|);
    ParseVarint(b, [], |Varint(a)|);
  }

  lemma ZigZagTells(a: int, b: int)
    ensures Varint(ZigZag(a)) == Varint(ZigZag(b)) <==> a == b
  {
    hide Varint;
    if Varint(ZigZag(a)) == Varint(ZigZag(b)) {
      VarintTells(ZigZag(a), ZigZag(b));
      ZigZagBijection(a, 0);
      ZigZagBijection(b, 0);
    }
  }

  /** Two signed words that are the same modulo 2^64 are the same. */
  lemma SameWord(a: int64, b: int64)
    ensures (a - b) % TWO64 == 0 <==> a == b
  {
  }

  // ---- DELTA

  lemma DeltaIsCongruent(kind: Kind, v: Value, c: Value)
    requires kind != STRING && Has(kind, v) && Has(kind, c)
    ensures (Number(c) + Delta(v, c) - Number(v)) % TWO64 == 0
  {
  }

  lemma Shift(n: int, m: int)
    ensures n % TWO64 == 0 ==> (m % TWO64 == 0 <==> (m - n) % TWO64 == 0)
  {
    var k := n / TWO64;
    if n % TWO64 == 0 {
      assert n == TWO64 * k;
      Multiple(m, k);
    }
  }

  lemma Multiple(m: int, k: int)
    ensures (m - TWO64 * k) % TWO64 == m % TWO64
  {
    var q, r := m / TWO64, m % TWO64;
    assert m - TWO64 * k == TWO64 * (q - k) + r;
  }

  /** A DELTA field carries the signed 64-bit number that, added to the cached value, gives the new
      one modulo 2^64. */
  lemma DeltaBytes(kind: Kind, v: Value, c: Value, d: int64)
    requires kind != STRING && Has(kind, v) && Has(kind, c)
    ensures FieldBytes(Instruction(kind, DELTA), v, Some(c)) == Varint(ZigZag(d))
       <==> (Number(c) + d - Number(v)) % TWO64 == 0
  {
    hide Varint, Delta;
    var e := Delta(v, c);
    DeltaIsCongruent(kind, v, c);
    ZigZagTells(e, d);
    Shift(Number(c) + e - Number(v), Number(c) + d - Number(v));
    SameWord(d, e);
  }

  /** And decoding adds it, in the width of the field. */
  lemma DecodedDelta(kind: Kind, i: nat, pMap: PMap, d: int64, rest: seq<byte>, c: Value, shown: Value)
    requires kind != STRING && Has(kind, c) && i < 32 && !pMap[31]
    ensures var r := DecodeField(Instruction(kind, DELTA), i, pMap, Varint(ZigZag(d)) + rest, c, shown);
      && r.Field? && r.consumed == |Varint(ZigZag(d))| && r.out == r.cache
      && Has(kind, r.cache) && (Number(c) + d - Number(r.cache)) % Range(kind) == 0
  {
    hide Varint, Parse, Plus;
    ReadersUndoWriters(ZigZag(d), rest);
    VarintLength(ZigZag(d));
    PlusAdds(kind, c, d);
  }

  lemma PlusAdds(kind: Kind, c: Value, d: int64)
    requires kind != STRING && Has(kind, c)
    ensures Has(kind, Plus(c, d)) && (Number(c) + d - Number(Plus(c, d))) % Range(kind) == 0
  {
    if kind == UINT32 {
      var sum := c.w + d;
      var q, r := sum / TWO32, sum % TWO32;
      assert sum - r == TWO32 * q;
    }
  }

  // ---- COPY

  /** A COPY field carries the new value, if it differs from the cached one. */
  lemma CopyBytesAre(kind: Kind, v: Value, c: Value, n: nat)
    requires kind != STRING && Has(kind, v) && Has(kind, c)
    ensures FieldBytes(Instruction(kind, COPY), v, Some(c)) == Varint(n)
       <==> v != c && (if kind == INT64 then UnZigZag(n) else n) == Number(v)
    ensures FieldBytes(Instruction(kind, COPY), v, Some(c)) == [] <==> v == c
  {
    hide Varint;
    NotEmpty(n);
    match v
    case Int64(x) =>
      NotEmpty(ZigZag(x));
      ZigZagBijection(x, n);
      if Varint(ZigZag(x)) == Varint(n) { VarintTells(ZigZag(x), n); }
    case Uint64(x) => NotEmpty(x); if Varint(x) == Varint(n) { VarintTells(x, n); }
    case Uint32(x) => NotEmpty(x); if Varint(x) == Varint(n) { VarintTells(x, n); }
  }

  lemma NotEmpty(n: nat)
    ensures Varint(n) != []
  {
  }

  /** A string is its length and its bytes, in a full record as in any other. */
  lemma StringBytes(s: seq<byte>, t: seq<byte>, c: Value, n: nat)
    requires |s| < TWO32 && Has(STRING, c) && c != Str(s)
    ensures FullBytes(Str(s)) == FieldBytes(Instruction(STRING, COPY), Str(s), Some(c))
    ensures FullBytes(Str(s)) == Varint(n) + t && n == |t| <==> s == t && n == |s|
  {
    hide Varint, Parse;
    if FullBytes(Str(s)) == Varint(n) + t && n == |t| {
      ParseVarint(|s|, s, |Varint(n)| + |Varint(|s|)|);
      ParseVarint(n, t, |Varint(n)| + |Varint(|s|)|);
      assert s == FullBytes(Str(s))[|Varint(|s|)|..] == t;
    }
  }

  // ---- Full records

  /** An integer lies in a full record as in memory: byte i is digit i of its word to the base 256. */
  lemma FullBytesAt(kind: Kind, v: Value, i: nat)
    requires kind != STRING && Has(kind, v) && i < if kind == UINT32 then 4 else 8
    ensures |FullBytes(v)| == if kind == UINT32 then 4 else 8
    ensures FullBytes(v)[i] == Digit256(if Number(v) < 0 then Number(v) + TWO64 else Number(v), i)
  {
    match v
    case Int64(x) => LittleEndianAt(if x < 0 then x + TWO64 else x, 8, i);
    case Uint64(x) => LittleEndianAt(x, 8, i);
    case Uint32(x) => LittleEndianAt(x, 4, i);
  }

  // ---- The presence map

  /** Bit j of a number. */
  predicate Bit(n: nat, j: nat)
    decreases j
  {
    if j == 0 then n % 2 == 1 else Bit(n / 2, j - 1)
  }

  lemma {:induction false} WordBit(bits: seq<bool>, j: nat)
    requires j < |bits|
    ensures Bit(Word(bits), j) <==> bits[j]
  {
    if j > 0 { WordBit(bits[1..], j - 1); }
    assert Word(bits) / 2 == Word(bits[1..]);
  }

  /** `n` doubled k times. */
  function Doubled(n: nat, k: nat): nat { if k == 0 then n else 2 * Doubled(n, k - 1) }

  lemma {:induction false} WordOfTwo(low: seq<bool>, high: seq<bool>)
    ensures Word(low + high) == Word(low) + Doubled(Word(high), |low|)
  {
    if low == [] {
      assert low + high == high;
    } else {
      WordOfTwo(low[1..], high);
      assert (low + high)[1..] == low[1..] + high;
    }
  }

  lemma EightDoublings(n: nat)
    ensures Doubled(n, 8) == 256 * n
  {
    assert Doubled(n, 1) == 2 * Doubled(n, 0) == 2 * n;
    assert Doubled(n, 3) == 2 * Doubled(n, 2) == 4 * Doubled(n, 1);
    assert Doubled(n, 5) == 2 * Doubled(n, 4) == 4 * Doubled(n, 3);
    assert Doubled(n, 7) == 2 * Doubled(n, 6) == 4 * Doubled(n, 5);
  }

  lemma WordOfByte(low: seq<bool>, high: seq<bool>)
    requires |low| == 8
    ensures Word(low + high) % 256 == Word(low) && Word(low + high) / 256 == Word(high)
  {
    hide Word;
    WordOfTwo(low, high);
    WordBound(low);
    EightDoublings(Word(high));
    assert Limit(8) == 256 by { assert Limit(4) == 16; }
  }

  lemma {:induction false} WordBytes(bits: seq<bool>, count: nat, k: nat)
    requires |bits| == 8 * count && k < count
    ensures LittleEndian(Word(bits), count)[k] == Word(bits[8 * k..8 * k + 8])
  {
    hide Word;
    var low, high := bits[..8], bits[8..];
    WordOfByte(low, high);
    assert low + high == bits;
    if k > 0 {
      WordBytes(high, count - 1, k - 1);
      assert high[8 * (k - 1)..8 * (k - 1) + 8] == bits[8 * k..8 * k + 8];
    } else {
      assert bits[0..8] == low;
    }
  }

  /** Field i of the map is bit i % 8 of byte i / 8. */
  lemma MapBit(pMap: PMap, i: nat)
    requires i < 32
    ensures |MapBytes(pMap)| == 4
    ensures Bit(MapBytes(pMap)[i / 8], i % 8) <==> pMap[i]
  {
    hide Word, LittleEndian, Bit;
    WordBytes(pMap, 4, i / 8);
    WordBit(pMap[8 * (i / 8)..8 * (i / 8) + 8], i % 8);
  }

  /** A full record has bit 31 set and no other; any other record has the bits of the fields that
      are in it. */
  lemma PresenceBit(t: Template, message: Fields, prior: Option<Fields>, i: nat)
    requires t.Ok() && t.Fits(message) && (prior.Some? ==> t.Fits(prior.value)) && i < 32
    ensures Presence(t, message, prior)[i] <==>
      if prior == None then i == 31
      else i < |message| && (t.instructions[i].action == DELTA || message[i] != prior.value[i])
  {
  }

  // ---- The fields in order

  function Flat(parts: seq<seq<byte>>): seq<byte> {
    if parts == [] then [] else Flat(parts[..|parts| - 1]) + parts[|parts| - 1]
  }

  lemma {:induction false} FlatFirst(part: seq<byte>, parts: seq<seq<byte>>)
    ensures Flat([part] + parts) == part + Flat(parts)
    decreases |parts|
  {
    if parts == [] {
      assert [part] + parts == [part] && [part][..0] == [];
      assert [] + part == part + [];
    } else {
      var most, last := parts[..|parts| - 1], parts[|parts| - 1];
      FlatFirst(part, most);
      assert ([part] + parts)[..|parts|] == [part] + most;
      assert part + Flat(most) + last == part + (Flat(most) + last);
    }
  }

  /** The bytes of every field. */
  function Parts(t: Template, i: nat, message: Fields, prior: Option<Fields>): seq<seq<byte>>
    requires |message| == |t.instructions| && i <= |message|
  {
    seq(|message| - i, k requires 0 <= k < |message| - i =>
      FieldBytes(t.instructions[i + k], message[i + k], At(prior, i + k)))
  }

  /** They stand one after the other, in the order of the template. */
  lemma {:induction false} FieldsInOrder(t: Template, i: nat, message: Fields, prior: Option<Fields>)
    requires |message| == |t.instructions| && i <= |message|
    ensures FieldsFrom(t, i, message, prior) == Flat(Parts(t, i, message, prior))
    decreases |message| - i
  {
    hide FieldBytes;
    if i < |message| {
      FieldsInOrder(t, i + 1, message, prior);
      var first := FieldBytes(t.instructions[i], message[i], At(prior, i));
      FlatFirst(first, Parts(t, i + 1, message, prior));
      assert Parts(t, i, message, prior) == [first] + Parts(t, i + 1, message, prior);
    }
  }

  /** A record: template id, index, presence map, and the fields in order. */
  lemma RecordInOrder(t: Template, index: nat, message: Fields, prior: Option<Fields>)
    requires t.Fits(message)
    ensures Record(t, index, message, prior)
         == Flat([Varint(t.id), Varint(index), MapBytes(Presence(t, message, prior))] + Parts(t, 0, message, prior))
  {
    hide Varint, MapBytes, Presence, FieldsFrom, Parts;
    var id, place, map4, parts := Varint(t.id), Varint(index), MapBytes(Presence(t, message, prior)),
      Parts(t, 0, message, prior);
    FieldsInOrder(t, 0, message, prior);
    FlatFirst(map4, parts);
    FlatFirst(place, [map4] + parts);
    FlatFirst(id, [place] + ([map4] + parts));
    assert [id, place, map4] + parts == [id] + ([place] + ([map4] + parts));
    assert id + (place + (map4 + Flat(parts))) == id + place + map4 + Flat(parts);
  }

  // ---- Records of a run

  /** After any run, the record of a message is against the last message sent for its token, or full
      if there is none. */
  lemma RecordAgainstLast(ts: seq<Template>, inputs: seq<Runs.Input>, input: Runs.Input, k: nat)
    requires Runs.AllOk(ts) && Runs.Ok(ts, Runs.Initial(ts)) && Runs.Run(ts, Runs.Initial(ts), inputs)
    requires var st := Runs.After(ts, Runs.Initial(ts), inputs);
      Runs.Ok(ts, st) && Runs.Acceptable(ts, st, input) && Runs.Find(ts, input.id) == Some(k)
    ensures var st := Runs.After(ts, Runs.Initial(ts), inputs);
      var last := Runs.LastSent(ts, inputs, k, input.token, None);
      && |ts[k].instructions| == |input.message|
      && Runs.Encoded(ts, st, input)
         == Flat([Varint(input.id), Varint(Runs.Place(st, k, input.token)),
                  MapBytes(Presence(ts[k], input.message, last))] + Parts(ts[k], 0, input.message, last))
  {
    hide Varint, MapBytes, Presence, Parts, Flat, Record, Runs.LastSent;
    var st := Runs.After(ts, Runs.Initial(ts), inputs);
    Runs.CacheIsLastSent(ts, Runs.Initial(ts), inputs, k, input.token);
    assert ts[k].Fits(input.message);
    RecordInOrder(ts[k], Runs.Place(st, k, input.token), input.message, Runs.Prior(st, k, input.token));
  }

  /** A token keeps its place; a new one gets the next. */
  lemma PlacesStay(ts: seq<Template>, st: Runs.State, input: Runs.Input, k: nat, token: string)
    requires Runs.AllOk(ts) && Runs.Ok(ts, st) && Runs.Acceptable(ts, st, input) && k < |ts|
    ensures var after := Runs.Encode(ts, st, input);
      var isNew := Runs.Find(ts, input.id) == Some(k) && Runs.Prior(st, k, input.token).None?;
      && |after.tokens| == |after.arrays| == |ts|
      && (Runs.Prior(st, k, token).Some? ==> Runs.Place(after, k, token) == Runs.Place(st, k, token))
      && |after.arrays[k]| == |st.arrays[k]| + (if isNew then 1 else 0)
      && (isNew ==> Runs.Place(st, k, input.token) == |st.arrays[k]| == Runs.Place(after, k, input.token))
  {
    hide Template.Ok, Template.Fits, Template.Accepts, Runs.AllOk, Runs.Acceptable;
    var found := Runs.Find(ts, input.id);
    hide Runs.Find;
    if found == Some(k) {
    } else {
      var after := Runs.Encode(ts, st, input);
      assert after.tokens[k] == st.tokens[k] && after.arrays[k] == st.arrays[k];
    }
  }
}
