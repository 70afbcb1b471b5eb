/** The delta compressor on values: fields, records and their decoding (src/Template.hpp,
    src/FieldInstructionInteger.hpp, src/FieldInstructionString.hpp).

    A record is the template id, the index of the cached message, a presence map of 32 bits and
    the fields. A full record, marked by bit 31 alone, carries every field as it is; any other
    carries the fields that differ from the cached message, or their difference from it. */
module Compressor {

  import opened Options
  import opened HostMemory
  import opened Words
  import opened WireFormat

  // ---- Presence maps

  function Word(bits: seq<bool>): nat {
    if bits == [] then 0 else (if bits[0] then 1 else 0) + 2 * Word(bits[1..])
  }

  function BitsOf(n: nat, count: nat): (bits: seq<bool>)
    ensures |bits| == count
    decreases count, n
  {
    if count == 0 then [] else [n % 2 == 1] + BitsOf(n / 2, count - 1)
  }

  lemma {:induction false} BitsRoundTrip(bits: seq<bool>)
    ensures BitsOf(Word(bits), |bits|) == bits
  {
    if bits != [] {
      var n := Word(bits);
      BitsRoundTrip(bits[1..]);
      assert n / 2 == Word(bits[1..]) && (n % 2 == 1) == bits[0];
    }
  }

  /** `Limit(k)` is two to the k. */
  function Limit(k: nat): nat { if k == 0 then 1 else 2 * Limit(k - 1) }

  lemma {:induction false} WordBound(bits: seq<bool>)
    ensures Word(bits) < Limit(|bits|)
  {
    if bits != [] { WordBound(bits[1..]); }
  }

  type PMap = bits: seq<bool> | |bits| == 32 witness BitsOf(0, 32)

  function NoBits(): PMap { seq(32, _ => false) }

  /** Bit 31 alone: the record carries every field as it is. */
  function Full(): PMap { NoBits()[31 := true] }

  function MapBytes(pMap: PMap): seq<byte> { LittleEndian(Word(pMap), 4) }

  lemma MapRoundTrip(pMap: PMap)
    ensures BitsOf(FromLittleEndian(MapBytes(pMap)), 32) == pMap
  {
    WordBound(pMap);
    assert Limit(32) == TWO32 by {
      assert Limit(8) == 256 && Limit(16) == 0x1_0000 && Limit(24) == 0x100_0000;
    }
    WordsFit(Word(pMap));
    LittleEndianRoundTrip(Word(pMap), 4);
    BitsRoundTrip(pMap);
  }

  // ---- Fields

  datatype Value = Int64(i: int64) | Uint64(u: uint64) | Uint32(w: uint32) | Str(s: seq<byte>)

  datatype Kind = INT64 | UINT64 | UINT32 | STRING

  datatype Action = COPY | DELTA

  datatype Instruction = Instruction(kind: Kind, action: Action)

  predicate Has(kind: Kind, v: Value) {
    match kind
    case INT64 => v.Int64?
    case UINT64 => v.Uint64?
    case UINT32 => v.Uint32?
    case STRING => v.Str?
  }

  function Zero(kind: Kind): (v: Value)
    ensures Has(kind, v)
  {
    match kind
    case INT64 => Int64(0)
    case UINT64 => Uint64(0)
    case UINT32 => Uint32(0)
    case STRING => Str([])
  }

  /** A difference of two 64-bit words as a signed word: the congruent one modulo 2^64. */
  function Wrap64(d: int): int64
    requires -TWO64 <= d < TWO64
  {
    if d >= TWO63 then d - TWO64 else if d < -TWO63 then d + TWO64 else d
  }

  /** The delta of integer fields. For INT64 the source leaves a difference outside the range of
      int64_t undefined, see Encodable. */
  function Delta(v: Value, c: Value): int64 {
    match (v, c)
    case (Int64(x), Int64(y)) => Wrap64(x - y)
    case (Uint64(x), Uint64(y)) => Wrap64(x - y)
    case (Uint32(x), Uint32(y)) => x - y
    case _ => 0
  }

  /** The cached value plus a delta, cut to the width of the field. */
  function Plus(c: Value, d: int64): Value {
    match c
    case Int64(x) => Int64(Wrap64(x + d))
    case Uint64(x) =>
      Uint64(if x + d < 0 then x + d + TWO64 else if x + d >= TWO64 then x + d - TWO64 else x + d)
    case Uint32(x) => Uint32(if 0 <= x + d < TWO32 then x + d else (x + d) % TWO32)
    case Str(_) => c
  }

  lemma PlusDelta(v: Value, c: Value)
    requires exists kind :: kind != STRING && Has(kind, v) && Has(kind, c)
    ensures Plus(c, Delta(v, c)) == v
  {
  }

  /** A value by itself, as COPY writes it. */
  function CopyBytes(v: Value): seq<byte> {
    match v
    case Int64(x) => Varint(ZigZag(x))
    case Uint64(x) => Varint(x)
    case Uint32(x) => Varint(x)
    case Str(s) => Varint(|s|) + s
  }

  /** A value as a full record carries it: integers as they lie in memory. */
  function FullBytes(v: Value): seq<byte> {
    match v
    case Int64(x) => LittleEndian(if x < 0 then x + TWO64 else x, 8)
    case Uint64(x) => LittleEndian(x, 8)
    case Uint32(x) => LittleEndian(x, 4)
    case Str(s) => Varint(|s|) + s
  }

  /** Whether an instruction writes its field, given the cached value, and so sets its bit. */
  predicate Writes(ins: Instruction, v: Value, c: Value) {
    if ins.action == COPY then v != c else ins.kind != STRING
  }

  /** The bytes of a field: against a cached value, or by itself in a full record. */
  function FieldBytes(ins: Instruction, v: Value, prior: Option<Value>): seq<byte> {
    match prior
    case None => FullBytes(v)
    case Some(c) =>
      if !Writes(ins, v, c) then []
      else if ins.action == COPY then CopyBytes(v)
      else Varint(ZigZag(Delta(v, c)))
  }

  // ---- Decoding a field

  /** A decoded field: the bytes consumed, and the new values of the cached and the output field. */
  datatype Field = Failed | Field(consumed: nat, cache: Value, out: Value)

  function ReadInteger(kind: Kind, bytes: seq<byte>): Parsed<Value> {
    match kind
    case INT64 =>
      (match Truncated(Parse(bytes, 10), TWO64)
       case Ok(z, n) => Ok(Int64(UnZigZag(z)), n)
       case _ => Corrupt)
    case UINT64 =>
      (match Truncated(Parse(bytes, 10), TWO64)
       case Ok(u, n) => Ok(Uint64(u), n)
       case _ => Corrupt)
    case UINT32 =>
      (match Truncated(Parse(bytes, 5), TWO32)
       case Ok(w, n) => Ok(Uint32(w), n)
       case _ => Corrupt)
    case STRING => Corrupt
  }

  function ReadString(bytes: seq<byte>): Parsed<Value> {
    match Truncated(Parse(bytes, 5), TWO32)
    case Ok(len, n) => if n + len <= |bytes| then Ok(Str(bytes[n..n + len]), n + len) else Corrupt
    case _ => Corrupt
  }

  function ReadMemory(kind: Kind, bytes: seq<byte>): Parsed<Value> {
    match kind
    case INT64 =>
      if |bytes| < 8 then Corrupt
      else
        var n := FromLittleEndian(bytes[..8]) % TWO64;
        Ok(Int64(if n >= TWO63 then n - TWO64 else n), 8)
    case UINT64 => if |bytes| < 8 then Corrupt else Ok(Uint64(FromLittleEndian(bytes[..8]) % TWO64), 8)
    case UINT32 => if |bytes| < 4 then Corrupt else Ok(Uint32(FromLittleEndian(bytes[..4]) % TWO32), 4)
    case STRING => ReadString(bytes)
  }

  function Updated(r: Parsed<Value>): Field {
    match r
    case Ok(v, n) => Field(n, v, v)
    case _ => Failed
  }

  /** One field instruction: `c` is the cached field and `d` the output field before. An integer
      COPY whose bit is clear leaves both as they are; a string COPY copies the cached field. */
  function DecodeField(ins: Instruction, i: nat, pMap: PMap, bytes: seq<byte>, c: Value, d: Value): (r: Field)
    requires i < 32
    ensures r.Field? ==> r.consumed <= |bytes|
  {
    if ins.kind != STRING then
      if pMap[31] then Updated(ReadMemory(ins.kind, bytes))
      else if ins.action == COPY then
        if pMap[i] then Updated(ReadInteger(ins.kind, bytes)) else Field(0, c, d)
      else
        match Truncated(Parse(bytes, 10), TWO64)
        case Ok(z, n) => Field(n, Plus(c, UnZigZag(z)), Plus(c, UnZigZag(z)))
        case _ => Failed
    else if pMap == Full() then Updated(ReadString(bytes))
    else if ins.action == COPY then
      if pMap[i] then Updated(ReadString(bytes)) else Field(0, c, c)
    else Failed
  }

  /** What the decoder shows of a field: the value that was encoded, except that an unchanged
      integer COPY field keeps the value of the template. */
  function Shown(ins: Instruction, v: Value, prior: Option<Value>, d: Value): Value {
    if prior.None? || ins.kind == STRING || Writes(ins, v, prior.value) then v else d
  }

  /** The instructions that work: there is no decoder for a string DELTA. */
  predicate Usable(ins: Instruction) { ins.kind == STRING ==> ins.action == COPY }

  /** What the source asks of a value: the type of its field, a string length that fits its
      32-bit word, and for a signed DELTA a difference that does not overflow. */
  predicate Encodable(ins: Instruction, v: Value, prior: Option<Value>) {
    && Has(ins.kind, v)
    && (v.Str? ==> |v.s| < TWO32)
    && (prior.Some? ==> Has(ins.kind, prior.value))
    && (prior.Some? && v.Int64? && ins.action == DELTA ==> -TWO63 <= v.i - prior.value.i < TWO63)
  }

  lemma MemoryRoundTrip(n: nat, count: nat, rest: seq<byte>)
    requires Beyond(n, count) == 0
    ensures FromLittleEndian((LittleEndian(n, count) + rest)[..count]) == n
  {
    LittleEndianRoundTrip(n, count);
    assert (LittleEndian(n, count) + rest)[..count] == LittleEndian(n, count);
  }

  lemma SignedRoundTrip(x: int64, rest: seq<byte>)
    ensures ReadMemory(INT64, FullBytes(Int64(x)) + rest) == Ok(Int64(x), 8)
  {
    var n := if x < 0 then x + TWO64 else x;
    WordsFit(n);
    MemoryRoundTrip(n, 8, rest);
  }

  lemma FullBytesRoundTrip(kind: Kind, v: Value, rest: seq<byte>)
    requires Has(kind, v) && (v.Str? ==> |v.s| < TWO32)
    ensures ReadMemory(kind, FullBytes(v) + rest) == Ok(v, |FullBytes(v)|)
  {
    hide LittleEndian, FromLittleEndian, Beyond, Varint, ReadString;
    match v
    case Str(s) => StringRoundTrip(s, rest);
    case Int64(x) => SignedRoundTrip(x, rest);
    case Uint64(x) =>
      WordsFit(x);
      MemoryRoundTrip(x, 8, rest);
    case Uint32(x) =>
      WordsFit(x);
      MemoryRoundTrip(x, 4, rest);
  }

  lemma StringRoundTrip(s: seq<byte>, rest: seq<byte>)
    requires |s| < TWO32
    ensures ReadString(Varint(|s|) + s + rest) == Ok(Str(s), |Varint(|s|) + s|)
  {
    ReadersUndoWriters(|s|, s + rest);
    VarintLength(|s|);
    var n := |Varint(|s|)|;
    var bytes := Varint(|s|) + s + rest;
    assert bytes == Varint(|s|) + (s + rest);
    assert bytes[n..n + |s|] == s;
  }

  lemma CopyBytesRoundTrip(kind: Kind, v: Value, rest: seq<byte>)
    requires Has(kind, v) && kind != STRING
    ensures ReadInteger(kind, CopyBytes(v) + rest) == Ok(v, |CopyBytes(v)|)
  {
    match v
    case Int64(x) =>
      ReadersUndoWriters(ZigZag(x), rest);
      VarintLength(ZigZag(x));
    case Uint64(x) =>
      ReadersUndoWriters(x, rest);
      VarintLength(x);
    case Uint32(x) =>
      ReadersUndoWriters(x, rest);
      VarintLength(x);
  }

  lemma DeltaRoundTrip(v: Value, c: Value, rest: seq<byte>)
    ensures var bytes := Varint(ZigZag(Delta(v, c)));
      var r := Truncated(Parse(bytes + rest, 10), TWO64);
      r.Ok? && UnZigZag(r.value) == Delta(v, c) && r.size == |bytes|
  {
    hide Varint, Parse, Delta;
    ReadersUndoWriters(ZigZag(Delta(v, c)), rest);
    VarintLength(ZigZag(Delta(v, c)));
  }

  /** A field is self-delimiting: decoding it consumes its bytes, whatever follows, leaves the
      encoded value in the cache, and shows it as Shown says. */
  lemma FieldRoundTrip(ins: Instruction, i: nat, pMap: PMap, v: Value, prior: Option<Value>, c: Value, d: Value,
                       rest: seq<byte>)
    requires i < 31 && Usable(ins) && Encodable(ins, v, prior)
    requires prior.None? ==> pMap == Full()
    requires prior.Some? ==> !pMap[31] && c == prior.value && pMap[i] == Writes(ins, v, c)
    ensures DecodeField(ins, i, pMap, FieldBytes(ins, v, prior) + rest, c, d)
         == Field(|FieldBytes(ins, v, prior)|, v, Shown(ins, v, prior, d))
  {
    if prior.None? {
      FullBytesRoundTrip(ins.kind, v, rest);
    } else if Writes(ins, v, c) {
      assert pMap != Full();
      if ins.action == DELTA {
        DeltaRoundTrip(v, c, rest);
        PlusDelta(v, c);
      } else if ins.kind == STRING {
        StringRoundTrip(v.s, rest);
      } else {
        CopyBytesRoundTrip(ins.kind, v, rest);
      }
    } else {
      assert FieldBytes(ins, v, prior) + rest == rest;
      assert pMap != Full();
    }
  }
}
