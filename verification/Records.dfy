/** Records of the delta compressor (src/Template.hpp), on values: a template, its presence map and
    its fields, with or without a cached message before it. */
module Records {

  import opened Options
  import opened HostMemory
  import opened WireFormat
  import opened Compressor

  type Fields = seq<Value>

  /** A template: its id, one instruction per field, and the fields of its prototype message. */
  datatype Template = Template(id: uint32, instructions: seq<Instruction>, defaults: Fields) {
    /** The presence map has room for 31 fields beside the mark of full records. */
    predicate Ok() {
      && |instructions| <= 31
      && (forall i :: 0 <= i < |instructions| ==> Usable(instructions[i]))
      && Fits(defaults)
    }

    predicate Fits(fields: Fields) {
      |fields| == |instructions| && forall i :: 0 <= i < |fields| ==> Has(instructions[i].kind, fields[i])
    }

    /** The message fits, and against `prior`, if there is one, every field can be encoded. */
    predicate Accepts(message: Fields, prior: Option<Fields>) {
      && Fits(message) && (prior.Some? ==> Fits(prior.value))
      && forall i :: 0 <= i < |message| ==> Encodable(instructions[i], message[i], At(prior, i))
    }
  }

  function At(prior: Option<Fields>, i: nat): Option<Value> {
    if prior.Some? && i < |prior.value| then Some(prior.value[i]) else None
  }

  /** The presence map of a record. */
  function Presence(t: Template, message: Fields, prior: Option<Fields>): PMap {
    if prior.None? then
      Full()
    else
      seq(32, i requires 0 <= i =>
        && i < |message| && i < |t.instructions| && i < |prior.value|
        && Writes(t.instructions[i], message[i], prior.value[i]))
  }

  /** The bytes of fields i, i + 1, ... */
  function FieldsFrom(t: Template, i: nat, message: Fields, prior: Option<Fields>): seq<byte>
    decreases |message| - i
  {
    if i >= |message| || i >= |t.instructions| then []
    else FieldBytes(t.instructions[i], message[i], At(prior, i)) + FieldsFrom(t, i + 1, message, prior)
  }

  /** A record: full when there is no prior message. */
  function Record(t: Template, index: nat, message: Fields, prior: Option<Fields>): seq<byte> {
    Varint(t.id) + Varint(index) + MapBytes(Presence(t, message, prior)) + FieldsFrom(t, 0, message, prior)
  }

  /** What the decoder shows of a field. */
  function OutputAt(t: Template, message: Fields, prior: Option<Fields>, i: nat): Value
    requires i < |message|
  {
    if i < |t.instructions| && i < |t.defaults| then Shown(t.instructions[i], message[i], At(prior, i), t.defaults[i])
    else message[i]
  }

  /** What the decoder shows of a message. */
  function Output(t: Template, message: Fields, prior: Option<Fields>): (out: Fields)
    ensures |out| == |message|
  {
    seq(|message|, i requires 0 <= i < |message| => OutputAt(t, message, prior, i))
  }

  /** An integer COPY field that did not change. */
  predicate Unsent(t: Template, message: Fields, prior: Option<Fields>, i: nat)
    requires t.Fits(message) && (prior.Some? ==> t.Fits(prior.value)) && i < |message|
  {
    && prior.Some? && message[i] == prior.value[i]
    && t.instructions[i].kind != STRING && t.instructions[i].action == COPY
  }

  /** The decoder shows the message that was encoded exactly when every integer COPY field that
      did not change happens to hold the template's value. */
  lemma OutputAgrees(t: Template, message: Fields, prior: Option<Fields>)
    requires t.Ok() && t.Fits(message) && (prior.Some? ==> t.Fits(prior.value))
    ensures Output(t, message, prior) == message
      <==> forall i :: 0 <= i < |message| && Unsent(t, message, prior, i) ==> message[i] == t.defaults[i]
  {
    var out := Output(t, message, prior);
    forall i | 0 <= i < |message|
      ensures out[i] == if Unsent(t, message, prior, i) then t.defaults[i] else message[i]
    {
    }
    if out == message {
      forall i | 0 <= i < |message| && Unsent(t, message, prior, i) ensures message[i] == t.defaults[i] {
        assert out[i] == message[i];
      }
    }
  }

  /** So it is not always shown: a uint64 COPY field that is sent twice with the value 5 is shown as 0. */
  lemma UnchangedFieldIsNotShown()
    ensures var t := Template(1, [Instruction(UINT64, COPY)], [Zero(UINT64)]);
      t.Ok() && t.Accepts([Uint64(5)], Some([Uint64(5)])) && Output(t, [Uint64(5)], Some([Uint64(5)])) == [Uint64(0)]
  {
  }

  // ---- Decoding a record

  /** What is left of decoding fields: the cached fields as far as they were updated, and on
      success the bytes consumed and the output fields. */
  datatype Body = BodyFailed(cache: Fields) | Body(consumed: nat, cache: Fields, out: Fields)

  /** The result of decoding after `n` bytes that have been consumed before. */
  function After(n: nat, body: Body): Body {
    match body
    case BodyFailed(cache) => body
    case Body(consumed, cache, out) => Body(n + consumed, cache, out)
  }

  function DecodeFields(t: Template, i: nat, pMap: PMap, bytes: seq<byte>, cache: Fields, out: Fields): (r: Body)
    requires t.Ok() && |cache| == |out| == |t.instructions| && i <= |out|
    ensures |r.cache| == |cache|
    decreases |out| - i
  {
    if i == |out| then Body(0, cache, out)
    else
      match DecodeField(t.instructions[i], i, pMap, bytes, cache[i], out[i])
      case Failed => BodyFailed(cache)
      case Field(n, c, o) =>
        After(n, DecodeFields(t, i + 1, pMap, bytes[n..], cache[i := c], out[i := o]))
  }

  /** From the presence map on. With fewer than four bytes the map is read past the end, no field
      is, and the prototype message is shown. */
  function DecodeBody(t: Template, bytes: seq<byte>, cache: Fields): (r: Body)
    requires t.Ok() && |cache| == |t.instructions|
    ensures |r.cache| == |cache|
  {
    if bytes == [] then BodyFailed(cache)
    else if |bytes| < 4 then Body(4, cache, t.defaults)
    else
      After(4, DecodeFields(t, 0, BitsOf(FromLittleEndian(bytes[..4]), 32), bytes[4..], cache, t.defaults))
  }

  lemma FieldAtRoundTrip(t: Template, i: nat, message: Fields, prior: Option<Fields>, c: Value, rest: seq<byte>)
    requires t.Ok() && t.Accepts(message, prior) && i < |message|
    requires prior.Some? ==> c == prior.value[i]
    ensures var field := FieldBytes(t.instructions[i], message[i], At(prior, i));
      DecodeField(t.instructions[i], i, Presence(t, message, prior), field + rest, c, t.defaults[i])
      == Field(|field|, message[i], OutputAt(t, message, prior, i))
  {
    FieldRoundTrip(t.instructions[i], i, Presence(t, message, prior), message[i], At(prior, i), c, t.defaults[i], rest);
  }

  /** The cached and the output fields once the first i fields have been decoded. */
  ghost predicate DecodedTo(t: Template, i: nat, message: Fields, prior: Option<Fields>, cache: Fields, out: Fields)
    requires t.Ok() && t.Accepts(message, prior) && i <= |message|
  {
    && |cache| == |out| == |message|
    && (forall j :: 0 <= j < i ==> cache[j] == message[j] && out[j] == OutputAt(t, message, prior, j))
    && (forall j :: i <= j < |message| ==> out[j] == t.defaults[j] && (prior.Some? ==> cache[j] == prior.value[j]))
  }

  lemma DecodedStep(t: Template, i: nat, message: Fields, prior: Option<Fields>, cache: Fields, out: Fields)
    requires t.Ok() && t.Accepts(message, prior) && i < |message| && DecodedTo(t, i, message, prior, cache, out)
    ensures DecodedTo(t, i + 1, message, prior, cache[i := message[i]], out[i := OutputAt(t, message, prior, i)])
  {
  }

  lemma DecodedAll(t: Template, message: Fields, prior: Option<Fields>, cache: Fields, out: Fields)
    requires t.Ok() && t.Accepts(message, prior) && DecodedTo(t, |message|, message, prior, cache, out)
    ensures cache == message && out == Output(t, message, prior)
  {
  }

  lemma DecodeFieldsStep(t: Template, i: nat, pMap: PMap, field: seq<byte>, after: seq<byte>,
                         cache: Fields, out: Fields, c: Value, o: Value)
    requires t.Ok() && |cache| == |out| == |t.instructions| && i < |out|
    requires DecodeField(t.instructions[i], i, pMap, field + after, cache[i], out[i]) == Field(|field|, c, o)
    ensures DecodeFields(t, i, pMap, field + after, cache, out)
         == After(|field|, DecodeFields(t, i + 1, pMap, after, cache[i := c], out[i := o]))
  {
    assert (field + after)[|field|..] == after;
  }

  /** Field i is decoded, and what is left is to decode the fields after it. */
  lemma FieldsStep(t: Template, i: nat, message: Fields, prior: Option<Fields>, cache: Fields, out: Fields,
                   rest: seq<byte>)
    requires t.Ok() && t.Accepts(message, prior) && i < |message| && DecodedTo(t, i, message, prior, cache, out)
    ensures var cache', out' := cache[i := message[i]], out[i := OutputAt(t, message, prior, i)];
      var pMap, field := Presence(t, message, prior), FieldBytes(t.instructions[i], message[i], At(prior, i));
      && DecodedTo(t, i + 1, message, prior, cache', out')
      && DecodeFields(t, i, pMap, FieldsFrom(t, i, message, prior) + rest, cache, out)
         == After(|field|, DecodeFields(t, i + 1, pMap, FieldsFrom(t, i + 1, message, prior) + rest, cache', out'))
  {
    hide DecodeField, FieldBytes, Presence, OutputAt;
    var field := FieldBytes(t.instructions[i], message[i], At(prior, i));
    var after := FieldsFrom(t, i + 1, message, prior) + rest;
    FieldAtRoundTrip(t, i, message, prior, cache[i], after);
    assert FieldsFrom(t, i, message, prior) + rest == field + after;
    DecodeFieldsStep(t, i, Presence(t, message, prior), field, after, cache, out,
                     message[i], OutputAt(t, message, prior, i));
    DecodedStep(t, i, message, prior, cache, out);
  }

  /** Decoding the fields from i on consumes exactly their bytes and leaves the message in the cache. */
  lemma {:induction false} FieldsRoundTrip(t: Template, i: nat, message: Fields, prior: Option<Fields>,
                                           cache: Fields, out: Fields, rest: seq<byte>)
    requires t.Ok() && t.Accepts(message, prior) && i <= |message| && DecodedTo(t, i, message, prior, cache, out)
    ensures DecodeFields(t, i, Presence(t, message, prior), FieldsFrom(t, i, message, prior) + rest, cache, out)
         == Body(|FieldsFrom(t, i, message, prior)|, message, Output(t, message, prior))
    decreases |message| - i
  {
    hide DecodeField, FieldBytes, Presence, OutputAt;
    if i == |message| {
      DecodedAll(t, message, prior, cache, out);
    } else {
      FieldsStep(t, i, message, prior, cache, out, rest);
      FieldsRoundTrip(t, i + 1, message, prior,
                      cache[i := message[i]], out[i := OutputAt(t, message, prior, i)], rest);
    }
  }

  lemma MapSize(pMap: PMap)
    ensures |MapBytes(pMap)| == 4
  {
  }

  lemma DecodeBodyStep(t: Template, pMap: PMap, fields: seq<byte>, cache: Fields)
    requires t.Ok() && |cache| == |t.instructions|
    ensures DecodeBody(t, MapBytes(pMap) + fields, cache)
         == After(4, DecodeFields(t, 0, pMap, fields, cache, t.defaults))
  {
    MapRoundTrip(pMap);
    var map4 := MapBytes(pMap);
    assert (map4 + fields)[..4] == map4 && (map4 + fields)[4..] == fields;
  }

  lemma BodyRoundTrip(t: Template, message: Fields, prior: Option<Fields>, cache: Fields, rest: seq<byte>)
    requires t.Ok() && t.Accepts(message, prior) && |cache| == |message| && (prior.Some? ==> cache == prior.value)
    ensures var body := MapBytes(Presence(t, message, prior)) + FieldsFrom(t, 0, message, prior);
      DecodeBody(t, body + rest, cache) == Body(|body|, message, Output(t, message, prior))
  {
    hide DecodeFields, FieldsFrom, MapBytes, Presence, DecodeBody, OutputAt;
    var pMap, fields := Presence(t, message, prior), FieldsFrom(t, 0, message, prior);
    assert |MapBytes(pMap)| == 4 by { MapSize(pMap); }
    DecodeBodyStep(t, pMap, fields + rest, cache);
    assert MapBytes(pMap) + fields + rest == MapBytes(pMap) + (fields + rest);
    FieldsRoundTrip(t, 0, message, prior, cache, t.defaults, rest);
  }
}
