/** The compressor as it runs: field instructions that push bytes and overwrite cached fields,
    templates that patch the presence map into the buffer, and the context with its caches
    (src/FieldInstructionInteger.hpp, src/FieldInstructionString.hpp, src/Template.hpp,
    src/Context.hpp). */
module Contexts {

  import opened Options
  import opened HostMemory
  import opened Words
  import opened WireFormat
  import opened Compressor
  import opened Records
  import Runs = ContextRuns

  method Push(buffer: seq<byte>, content: array<byte>, n: nat) returns (out: seq<byte>)
    requires n <= content.Length
    ensures out == buffer + content[..n]
  {
    out := buffer;
    for i := 0 to n
      invariant out == buffer + content[..i]
    {
      out := out + [content[i]];
    }
  }

  /** A value by itself: every branch picks the writer for its type. */
  method PushCopy(v: Value, buffer: seq<byte>) returns (out: seq<byte>)
    requires v.Str? ==> |v.s| < TWO32
    ensures out == buffer + CopyBytes(v)
  {
    var content := new byte[10];
    match v
    case Int64(x) =>
      var n := WriteSignedVarint64(x, content);
      out := Push(buffer, content, n);
    case Uint64(x) =>
      var n := WriteVarint64(x, content);
      out := Push(buffer, content, n);
    case Uint32(x) =>
      var n := WriteVarint32(x, content);
      out := Push(buffer, content, n);
    case Str(s) =>
      var n := WriteVarint32(|s|, content);
      out := Push(buffer, content, n);
      for i := 0 to |s|
        invariant out == buffer + Varint(|s|) + s[..i]
      {
        out := out + [s[i]];
      }
      assert buffer + Varint(|s|) + s == buffer + (Varint(|s|) + s);
  }

  method PushDelta(v: Value, c: Value, buffer: seq<byte>) returns (out: seq<byte>)
    ensures out == buffer + Varint(ZigZag(Delta(v, c)))
  {
    var content := new byte[10];
    var n := WriteSignedVarint64(Delta(v, c), content);
    out := Push(buffer, content, n);
  }

  /** FieldInstruction::encode against a cached field: the bytes, the cached field, and the bit. */
  method EncodeField(ins: Instruction, i: nat, v: Value, c: Value, buffer: seq<byte>, pMap: PMap)
    returns (out: seq<byte>, cache: Value, bits: PMap)
    requires i < 31 && Usable(ins) && Encodable(ins, v, Some(c))
    ensures out == buffer + FieldBytes(ins, v, Some(c))
    ensures cache == v
    ensures bits == if Writes(ins, v, c) then pMap[i := true] else pMap
  {
    out, cache, bits := buffer, c, pMap;
    match ins.action
    case COPY =>
      if v != c {
        out := PushCopy(v, buffer);
        cache := v;
        bits := pMap[i := true];
      } else {
        assert buffer + [] == buffer;
      }
    case DELTA =>
      out := PushDelta(v, c, buffer);
      cache := v;
      bits := pMap[i := true];
  }

  /** FieldInstruction::encode by itself. */
  method EncodeFullField(v: Value, buffer: seq<byte>) returns (out: seq<byte>)
    requires v.Str? ==> |v.s| < TWO32
    ensures out == buffer + FullBytes(v)
  {
    if v.Str? {
      out := PushCopy(v, buffer);
    } else {
      var memory := FullBytes(v);
      out := buffer;
      for i := 0 to |memory|
        invariant out == buffer + memory[..i]
      {
        out := out + [memory[i]];
      }
      assert memory[..|memory|] == memory;
    }
  }

  /** The bytes of the first n fields. */
  ghost function FieldsTo(t: Template, n: nat, message: Fields, prior: Option<Fields>): seq<byte>
    requires n <= |message| == |t.instructions|
  {
    if n == 0 then []
    else FieldsTo(t, n - 1, message, prior) + FieldBytes(t.instructions[n - 1], message[n - 1], At(prior, n - 1))
  }

  lemma {:induction false} FieldsToAll(t: Template, n: nat, message: Fields, prior: Option<Fields>)
    requires n <= |message| == |t.instructions|
    ensures FieldsTo(t, n, message, prior) + FieldsFrom(t, n, message, prior) == FieldsFrom(t, 0, message, prior)
  {
    hide FieldBytes;
    if n == 0 {
      assert [] + FieldsFrom(t, 0, message, prior) == FieldsFrom(t, 0, message, prior);
    } else {
      FieldsToAll(t, n - 1, message, prior);
      var field := FieldBytes(t.instructions[n - 1], message[n - 1], At(prior, n - 1));
      assert FieldsTo(t, n - 1, message, prior) + field + FieldsFrom(t, n, message, prior)
          == FieldsTo(t, n - 1, message, prior) + (field + FieldsFrom(t, n, message, prior));
    }
  }

  lemma AllFields(t: Template, message: Fields, prior: Option<Fields>)
    requires |message| == |t.instructions|
    ensures FieldsTo(t, |message|, message, prior) == FieldsFrom(t, 0, message, prior)
  {
    FieldsToAll(t, |message|, message, prior);
  }

  lemma Assembled(t: Template, index: nat, message: Fields, prior: Option<Fields>, buffer: seq<byte>)
    ensures buffer + Varint(t.id) + Varint(index)
          + MapBytes(Presence(t, message, prior)) + FieldsFrom(t, 0, message, prior)
         == buffer + Record(t, index, message, prior)
  {
    hide Varint, MapBytes, Presence, FieldsFrom;
  }

  method PushHeader(t: Template, index: uint64, buffer: seq<byte>) returns (out: seq<byte>)
    ensures out == buffer + Varint(t.id) + Varint(index) + [0, 0, 0, 0]
  {
    var content := new byte[10];
    var n := WriteVarint32(t.id, content);
    out := Push(buffer, content, n);
    n := WriteVarint64(index, content);
    out := Push(out, content, n);
    out := out + [0, 0, 0, 0];
  }

  /** Writing the presence map over the four bytes reserved for it. */
  method Patch(buffer: seq<byte>, at: nat, pMap: PMap, ghost header: seq<byte>, ghost fields: seq<byte>)
    returns (out: seq<byte>)
    requires |header| == at && buffer == header + [0, 0, 0, 0] + fields
    ensures out == header + MapBytes(pMap) + fields
  {
    out := buffer[..at] + MapBytes(pMap) + buffer[at + 4..];
    assert buffer[..at] == header && buffer[at + 4..] == fields;
  }

  /** The presence map once the first n fields have been looked at. */
  ghost predicate SetTo(t: Template, n: nat, message: Fields, prior: Fields, bits: PMap)
    requires n <= |t.instructions| == |message| == |prior|
  {
    forall i :: 0 <= i < 32 ==> bits[i] == (i < n && Writes(t.instructions[i], message[i], prior[i]))
  }

  /** Template::encode against a cached message. */
  method EncodeDelta(t: Template, index: uint64, message: Fields, prior: Fields, buffer: seq<byte>)
    returns (out: seq<byte>, cache: Fields)
    requires t.Ok() && t.Accepts(message, Some(prior))
    ensures out == buffer + Record(t, index, message, Some(prior))
    ensures cache == message
  {
    hide FieldBytes, Writes, Encodable, Varint, MapBytes, FieldsFrom, Record;
    var pMap: PMap := NoBits();
    out := PushHeader(t, index, buffer);
    ghost var reserved := out;
    var pmapSize := |out| - 4;
    cache := prior;
    for i := 0 to |t.instructions|
      invariant |cache| == |message| && cache[..i] == message[..i] && cache[i..] == prior[i..]
      invariant out == reserved + FieldsTo(t, i, message, Some(prior))
      invariant SetTo(t, i, message, prior, pMap)
    {
      assert cache[i] == cache[i..][0] == prior[i];
      var value;
      out, value, pMap := EncodeField(t.instructions[i], i, message[i], cache[i], out, pMap);
      assert cache[i..][1..] == cache[i + 1..];
      cache := cache[i := value];
    }
    AllFields(t, message, Some(prior));
    assert pMap == Presence(t, message, Some(prior));
    out := Patch(out, pmapSize, pMap, buffer + Varint(t.id) + Varint(index), FieldsFrom(t, 0, message, Some(prior)));
    Assembled(t, index, message, Some(prior), buffer);
  }

  lemma FullField(ins: Instruction, v: Value)
    requires Encodable(ins, v, None)
    ensures FieldBytes(ins, v, None) == FullBytes(v) && (v.Str? ==> |v.s| < TWO32)
  {
  }

  /** Template::encode of a new message. */
  method EncodeFull(t: Template, index: uint64, message: Fields, buffer: seq<byte>) returns (out: seq<byte>)
    requires t.Ok() && t.Accepts(message, None)
    ensures out == buffer + Record(t, index, message, None)
  {
    hide FieldsFrom, Varint, MapBytes, Record, FieldBytes, FullBytes, Encodable;
    out := PushHeader(t, index, buffer);
    ghost var reserved := out;
    var pmapSize := |out| - 4;
    for i := 0 to |t.instructions|
      invariant out == reserved + FieldsTo(t, i, message, None)
    {
      FullField(t.instructions[i], message[i]);
      out := EncodeFullField(message[i], out);
    }
    AllFields(t, message, None);
    out := Patch(out, pmapSize, Full(), buffer + Varint(t.id) + Varint(index), FieldsFrom(t, 0, message, None));
    Assembled(t, index, message, None, buffer);
  }

  /** Template::decode. */
  method DecodeRecord(t: Template, bytes: seq<byte>, cache0: Fields) returns (r: Body)
    requires t.Ok() && |cache0| == |t.instructions|
    ensures r == DecodeBody(t, bytes, cache0)
  {
    hide DecodeField;
    if |bytes| <= 0 { return BodyFailed(cache0); }
    if |bytes| < 4 { return Body(4, cache0, t.defaults); }
    var pMap: PMap := BitsOf(FromLittleEndian(bytes[..4]), 32);
    var begin, consume := bytes[4..], 4;
    var cache, out := cache0, t.defaults;
    for i := 0 to |t.instructions|
      invariant |cache| == |out| == |t.instructions|
      invariant DecodeBody(t, bytes, cache0) == After(consume, DecodeFields(t, i, pMap, begin, cache, out))
    {
      match DecodeField(t.instructions[i], i, pMap, begin, cache[i], out[i]) {
        case Failed => return BodyFailed(cache);
        case Field(n, c, o) =>
          cache, out := cache[i := c], out[i := o];
          begin, consume := begin[n..], consume + n;
      }
    }
    r := Body(consume, cache, out);
  }

  class Context {
    const templates: seq<Template>
    var tokens: seq<map<string, nat>>
    var arrays: seq<seq<Runs.Slot>>

    ghost function View(): Runs.State reads this { Runs.State(tokens, arrays) }

    /** Templates are numbered in one byte. */
    constructor (templates: seq<Template>)
      requires |templates| <= 255 && Runs.AllOk(templates)
      ensures this.templates == templates && View() == Runs.Initial(templates) && Runs.Ok(templates, View())
    {
      this.templates := templates;
      tokens := seq(|templates|, _ => map[]);
      arrays := seq(|templates|, _ => []);
    }

    method Encode(message: Fields, id: uint32, token: string, buffer: seq<byte>) returns (out: seq<byte>)
      requires Runs.AllOk(templates) && Runs.Ok(templates, View())
      requires Runs.Acceptable(templates, View(), Runs.Input(message, id, token))
      modifies this
      ensures View() == Runs.Encode(templates, old(View()), Runs.Input(message, id, token))
      ensures out == buffer + Runs.Encoded(templates, old(View()), Runs.Input(message, id, token))
      ensures Runs.Ok(templates, View())
    {
      hide Record;
      ghost var before, input := View(), Runs.Input(message, id, token);
      Runs.EncodeKeepsOk(templates, before, input);
      var found := Runs.Find(templates, id);
      if found.None? {
        assert buffer + [] == buffer;
        return buffer;
      }
      var k := found.value;
      if token in tokens[k] {
        var index := tokens[k][token];
        var cache;
        out, cache := EncodeDelta(templates[k], index, message, arrays[k][index].fields, buffer);
        arrays := arrays[k := arrays[k][index := Runs.Cached(cache)]];
      } else {
        var grown: map<string, nat> := tokens[k][token := |arrays[k]|];
        out := EncodeFull(templates[k], |arrays[k]|, message, buffer);
        arrays := arrays[k := arrays[k] + [Runs.Cached(message)]];
        tokens := tokens[k := grown];
      }
    }

    method Decode(buffer: seq<byte>, messages0: seq<Fields>) returns (messages: seq<Fields>)
      requires Runs.AllOk(templates) && |arrays| == |templates| && |buffer| < 0x8000_0000
      modifies this`arrays
      ensures Runs.Decoded(arrays, messages) == Runs.Decode(templates, old(arrays), buffer, messages0)
    {
      hide Runs.DecodeOne;
      var begin := buffer;
      messages := messages0;
      while begin != []
        invariant |arrays| == |templates|
        invariant Runs.Decode(templates, arrays, begin, messages)
               == Runs.Decode(templates, old(arrays), buffer, messages0)
        decreases |begin|
      {
        var stop, consumed;
        stop, consumed, messages := DecodeNext(begin, messages);
        if stop || consumed >= |begin| { return; }
        begin := begin[consumed..];
      }
    }

    /** One turn of its loop. */
    method DecodeNext(begin: seq<byte>, messages0: seq<Fields>)
      returns (stop: bool, consumed: nat, messages: seq<Fields>)
      requires Runs.AllOk(templates) && |arrays| == |templates| && 0 < |begin| < 0x8000_0000
      modifies this`arrays
      ensures Runs.DecodeOne(templates, old(arrays), begin, messages0)
           == if stop then Runs.Stop(arrays, messages) else Runs.More(arrays, messages, consumed)
    {
      hide Parse, Runs.Grown, DecodeBody, Varint;
      stop, consumed, messages := true, 0, messages0;
      var id := ReadVarint32(begin);
      if !id.Ok? { return; }
      var index := ReadVarint64(begin[id.size..]);
      if !index.Ok? { return; }
      var found := Runs.Find(templates, id.value);
      if found.None? { return; }
      var t, k := templates[found.value], found.value;
      var entries := Runs.Grown(t, arrays[k], index.value);
      var header := id.size + index.size;
      if entries[index.value].Null? || |entries[index.value].fields| != |t.instructions| {
        arrays := arrays[k := entries];
        return;
      }
      var body := DecodeRecord(t, begin[header..], entries[index.value].fields);
      arrays := arrays[k := entries[index.value := Runs.Cached(body.cache)]];
      if body.BodyFailed? {
        messages := [];
        return;
      }
      messages := messages + [body.out];
      stop, consumed := false, header + body.consumed;
    }
  }

  /** One context encodes a run into a buffer and another one, in lock-step with it, decodes the
      buffer: they are in lock-step again, and every record gave its message. */
  method Transmit(encoder: Context, decoder: Context, inputs: seq<Runs.Input>) returns (messages: seq<Fields>)
    requires encoder != decoder && decoder.templates == encoder.templates && decoder.arrays == encoder.arrays
    requires Runs.AllOk(encoder.templates) && Runs.Ok(encoder.templates, encoder.View())
    requires Runs.Run(encoder.templates, encoder.View(), inputs)
    requires |Runs.Bytes(encoder.templates, encoder.View(), inputs)| < 0x8000_0000
    modifies encoder, decoder
    ensures decoder.arrays == encoder.arrays
    ensures encoder.View() == Runs.After(encoder.templates, old(encoder.View()), inputs)
    ensures messages == Runs.AllShown(encoder.templates, old(encoder.View()), inputs)
  {
    hide Runs.Encode, Runs.Encoded, Runs.Acceptable, Runs.Shows, Runs.Decode, Runs.AllShown, Runs.Bytes, Runs.After;
    ghost var ts, before := encoder.templates, encoder.View();
    var buffer := EncodeAll(encoder, inputs);
    assert buffer + [] == buffer;
    Runs.RunRoundTrip(ts, before, inputs, [], []);
    messages := decoder.Decode(buffer, []);
    Runs.DecodeNothing(ts, encoder.arrays, Runs.AllShown(ts, before, inputs));
    assert [] + Runs.AllShown(ts, before, inputs) == Runs.AllShown(ts, before, inputs);
  }

  /** One call of encode after the other, into one buffer. */
  method EncodeAll(encoder: Context, inputs: seq<Runs.Input>) returns (buffer: seq<byte>)
    requires Runs.AllOk(encoder.templates) && Runs.Ok(encoder.templates, encoder.View())
    requires Runs.Run(encoder.templates, encoder.View(), inputs)
    modifies encoder
    ensures encoder.View() == Runs.After(encoder.templates, old(encoder.View()), inputs)
    ensures buffer == Runs.Bytes(encoder.templates, old(encoder.View()), inputs)
  {
    hide Runs.Encode, Runs.Encoded, Runs.Acceptable;
    ghost var ts, before := encoder.templates, encoder.View();
    buffer := [];
    assert inputs[0..] == inputs;
    for i := 0 to |inputs|
      invariant Runs.Ok(ts, encoder.View()) && Runs.Run(ts, encoder.View(), inputs[i..])
      invariant Runs.After(ts, before, inputs) == Runs.After(ts, encoder.View(), inputs[i..])
      invariant Runs.Bytes(ts, before, inputs) == buffer + Runs.Bytes(ts, encoder.View(), inputs[i..])
    {
      assert inputs[i..][0] == inputs[i] && inputs[i..][1..] == inputs[i + 1..];
      var input := inputs[i];
      buffer := encoder.Encode(input.message, input.id, input.token, buffer);
    }
    assert buffer + [] == buffer;
  }
}
