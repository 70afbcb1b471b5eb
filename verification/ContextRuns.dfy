/** Whole runs of an encoding and a decoding context (src/Context.hpp), on values: the caches of
    the two stay in lock-step, and records need no separators. */
module ContextRuns {

  import opened Options
  import opened Words
  import opened WireFormat
  import opened Compressor
  import opened Records

  /** An entry of a cache array; Null is what resizing leaves in the entries it skips. */
  datatype Slot = Null | Cached(fields: Fields)

  /** The caches of a context, one map from tokens to places and one array for each template. */
  datatype State = State(tokens: seq<map<string, nat>>, arrays: seq<seq<Slot>>)

  /** The template an id names: the last one added with it. */
  function Find(ts: seq<Template>, id: uint32): (r: Option<nat>)
    ensures r.Some? ==> r.value < |ts| && ts[r.value].id == id
    ensures r.None? ==> forall k :: 0 <= k < |ts| ==> ts[k].id != id
    ensures r.Some? ==> forall k :: r.value < k < |ts| ==> ts[k].id != id
  {
    if ts == [] then None
    else if ts[|ts| - 1].id == id then Some(|ts| - 1)
    else Find(ts[..|ts| - 1], id)
  }

  ghost predicate AllOk(ts: seq<Template>) { forall k :: 0 <= k < |ts| ==> ts[k].Ok() }

  /** Every array entry is empty or fits its template. */
  ghost predicate Fitting(ts: seq<Template>, arrays: seq<seq<Slot>>) {
    && |arrays| == |ts|
    && forall k, j :: 0 <= k < |ts| && 0 <= j < |arrays[k]| && arrays[k][j].Cached? ==> ts[k].Fits(arrays[k][j].fields)
  }

  /** What encoding keeps: every token has an entry of its own, and every entry is filled. */
  ghost predicate Ok(ts: seq<Template>, st: State) {
    && Fitting(ts, st.arrays) && |st.tokens| == |ts|
    && (forall k, token :: 0 <= k < |ts| && token in st.tokens[k] ==> st.tokens[k][token] < |st.arrays[k]|)
    && (forall k, a, b :: 0 <= k < |ts| && a in st.tokens[k] && b in st.tokens[k] && a != b
          ==> st.tokens[k][a] != st.tokens[k][b])
    && (forall k, j :: 0 <= k < |ts| && 0 <= j < |st.arrays[k]| ==> st.arrays[k][j].Cached?)
  }

  function Initial(ts: seq<Template>): State {
    State(seq(|ts|, _ => map[]), seq(|ts|, _ => []))
  }

  datatype Input = Input(message: Fields, id: uint32, token: string)

  /** The cached message of a token. */
  function Prior(st: State, k: nat, token: string): Option<Fields>
    requires k < |st.tokens| && k < |st.arrays|
  {
    if token in st.tokens[k] && st.tokens[k][token] < |st.arrays[k]| && st.arrays[k][st.tokens[k][token]].Cached?
    then Some(st.arrays[k][st.tokens[k][token]].fields)
    else None
  }

  /** What the source asks of a call of encode, if the template is known. */
  ghost predicate Acceptable(ts: seq<Template>, st: State, input: Input)
    requires Ok(ts, st)
  {
    match Find(ts, input.id)
    case None => true
    case Some(k) => ts[k].Accepts(input.message, Prior(st, k, input.token)) && |st.arrays[k]| < TWO64
  }

  /** Context::encode: the state after it. */
  function Encode(ts: seq<Template>, st: State, input: Input): State
    requires |st.tokens| == |st.arrays| == |ts|
  {
    match Find(ts, input.id)
    case None => st
    case Some(k) =>
      if Prior(st, k, input.token).Some? then
        var j := st.tokens[k][input.token];
        st.(arrays := st.arrays[k := st.arrays[k][j := Cached(input.message)]])
      else
        var tokens: map<string, nat> := st.tokens[k][input.token := |st.arrays[k]|];
        State(st.tokens[k := tokens],
              st.arrays[k := st.arrays[k] + [Cached(input.message)]])
  }

  /** Context::encode: the bytes it appends. */
  ghost function Encoded(ts: seq<Template>, st: State, input: Input): seq<byte>
    requires Ok(ts, st) && Acceptable(ts, st, input)
  {
    match Find(ts, input.id)
    case None => []
    case Some(k) =>
      var prior := Prior(st, k, input.token);
      Record(ts[k], Place(st, k, input.token), input.message, prior)
  }

  lemma EncodeKeepsOk(ts: seq<Template>, st: State, input: Input)
    requires AllOk(ts) && Ok(ts, st) && Acceptable(ts, st, input)
    ensures Ok(ts, Encode(ts, st, input))
  {
  }

  /** The messages a decoder appends for a call of encode: one, or none if the template is unknown. */
  ghost function Shows(ts: seq<Template>, st: State, input: Input): seq<Fields>
    requires AllOk(ts) && Ok(ts, st) && Acceptable(ts, st, input)
  {
    match Find(ts, input.id)
    case None => []
    case Some(k) => [Output(ts[k], input.message, Prior(st, k, input.token))]
  }

  // ---- Decoding

  /** One turn of the loop of Context::decode. */
  datatype Turn = Stop(arrays: seq<seq<Slot>>, messages: seq<Fields>)
                | More(arrays: seq<seq<Slot>>, messages: seq<Fields>, consumed: nat)

  /** The array with an entry `index`: a fresh entry starts out zeroed. */
  function Grown(t: Template, entries: seq<Slot>, index: nat): (r: seq<Slot>)
    ensures index < |r|
  {
    if index < |entries| then
      entries
    else
      var zeros := seq(|t.instructions|, i requires 0 <= i < |t.instructions| => Zero(t.instructions[i].kind));
      entries + seq(index - |entries|, _ => Null) + [Cached(zeros)]
  }

  function DecodeOne(ts: seq<Template>, arrays: seq<seq<Slot>>, bytes: seq<byte>, messages: seq<Fields>): (r: Turn)
    requires AllOk(ts) && |arrays| == |ts|
    ensures |r.arrays| == |ts| && (r.More? ==> r.consumed > 0)
  {
    match Truncated(Parse(bytes, 5), TWO32)
    case Ok(id, n) =>
      (match Truncated(Parse(bytes[n..], 10), TWO64)
       case Ok(index, m) =>
         (match Find(ts, id)
          case Some(k) => DecodeInto(ts[k], k, arrays, index, n + m, bytes[n + m..], messages)
          case None => Stop(arrays, messages))
       case _ => Stop(arrays, messages))
    case _ => Stop(arrays, messages)
  }

  /** The record after its id and index. A failure drops every message of this call of decode,
      but keeps what it did to the cache. An entry that is Null is not to be followed. */
  function DecodeInto(t: Template, k: nat, arrays: seq<seq<Slot>>, index: nat, header: nat, body: seq<byte>,
                      messages: seq<Fields>): (r: Turn)
    requires t.Ok() && k < |arrays|
    ensures |r.arrays| == |arrays| && (r.More? ==> r.consumed >= header)
  {
    var entries := Grown(t, arrays[k], index);
    if entries[index].Null? || |entries[index].fields| != |t.instructions| then Stop(arrays[k := entries], messages)
    else
      match DecodeBody(t, body, entries[index].fields)
      case BodyFailed(cache) => Stop(arrays[k := entries[index := Cached(cache)]], [])
      case Body(consumed, cache, out) =>
        More(arrays[k := entries[index := Cached(cache)]], messages + [out], header + consumed)
  }

  datatype Decoded = Decoded(arrays: seq<seq<Slot>>, messages: seq<Fields>)

  /** Context::decode: records are decoded while there are bytes left. */
  function Decode(ts: seq<Template>, arrays: seq<seq<Slot>>, bytes: seq<byte>, messages: seq<Fields>): Decoded
    requires AllOk(ts) && |arrays| == |ts|
    decreases |bytes|
  {
    if bytes == [] then Decoded(arrays, messages)
    else
      match DecodeOne(ts, arrays, bytes, messages)
      case Stop(arrays', messages') => Decoded(arrays', messages')
      case More(arrays', messages', consumed) =>
        if consumed >= |bytes| then Decoded(arrays', messages')
        else Decode(ts, arrays', bytes[consumed..], messages')
  }

  /** The place of the record of a call of encode in the array of its template. */
  function Place(st: State, k: nat, token: string): nat
    requires k < |st.tokens| && k < |st.arrays|
  {
    if Prior(st, k, token).Some? then st.tokens[k][token] else |st.arrays[k]|
  }

  lemma HeaderRoundTrip(id: uint32, index: nat, tail: seq<byte>)
    requires index < TWO64
    ensures var bytes := Varint(id) + Varint(index) + tail;
      var a, b := |Varint(id)|, |Varint(index)|;
      && Truncated(Parse(bytes, 5), TWO32) == Parsed.Ok(id, a)
      && Truncated(Parse(bytes[a..], 10), TWO64) == Parsed.Ok(index, b)
      && bytes[a + b..] == tail
  {
    var a, b := Varint(id), Varint(index);
    VarintLength(id);
    VarintLength(index);
    ReadersUndoWriters(id, b + tail);
    ReadersUndoWriters(index, tail);
    assert a + b + tail == a + (b + tail);
    assert (a + b + tail)[|a|..] == b + tail;
  }

  lemma IntoRoundTrip(ts: seq<Template>, st: State, input: Input, header: nat, rest: seq<byte>, messages: seq<Fields>)
    requires AllOk(ts) && Ok(ts, st) && Acceptable(ts, st, input) && Find(ts, input.id).Some?
    ensures var k := Find(ts, input.id).value;
      var prior := Prior(st, k, input.token);
      var body := MapBytes(Presence(ts[k], input.message, prior)) + FieldsFrom(ts[k], 0, input.message, prior);
      DecodeInto(ts[k], k, st.arrays, Place(st, k, input.token), header, body + rest, messages)
      == More(Encode(ts, st, input).arrays, messages + Shows(ts, st, input), header + |body|)
  {
    var k := Find(ts, input.id).value;
    var prior, index := Prior(st, k, input.token), Place(st, k, input.token);
    var entries := Grown(ts[k], st.arrays[k], index);
    BodyRoundTrip(ts[k], input.message, prior, entries[index].fields, rest);
    assert entries[index := Cached(input.message)] == Encode(ts, st, input).arrays[k];
  }

  lemma DecodeNothing(ts: seq<Template>, arrays: seq<seq<Slot>>, messages: seq<Fields>)
    requires AllOk(ts) && |arrays| == |ts|
    ensures Decode(ts, arrays, [], messages) == Decoded(arrays, messages)
  {
  }

  /** A record is self-delimiting: whatever follows it, decoding it in lock-step consumes exactly
      its bytes, appends the message, and leaves the decoder in lock-step again. */
  lemma RecordRoundTrip(ts: seq<Template>, st: State, input: Input, rest: seq<byte>, messages: seq<Fields>)
    requires AllOk(ts) && Ok(ts, st) && Acceptable(ts, st, input) && Find(ts, input.id).Some?
    ensures DecodeOne(ts, st.arrays, Encoded(ts, st, input) + rest, messages)
         == More(Encode(ts, st, input).arrays, messages + Shows(ts, st, input), |Encoded(ts, st, input)|)
  {
    hide Varint, Parse, MapBytes, Presence, FieldsFrom, DecodeInto;
    var k := Find(ts, input.id).value;
    var t, prior, index := ts[k], Prior(st, k, input.token), Place(st, k, input.token);
    var body := MapBytes(Presence(t, input.message, prior)) + FieldsFrom(t, 0, input.message, prior);
    var header := Varint(t.id) + Varint(index);
    assert Encoded(ts, st, input) + rest == header + (body + rest);
    HeaderRoundTrip(t.id, index, body + rest);
    IntoRoundTrip(ts, st, input, |header|, rest, messages);
  }

  // ---- Runs

  ghost function After(ts: seq<Template>, st: State, inputs: seq<Input>): State
    requires |st.tokens| == |st.arrays| == |ts|
    decreases |inputs|
  {
    if inputs == [] then st else After(ts, Encode(ts, st, inputs[0]), inputs[1..])
  }

  ghost predicate Run(ts: seq<Template>, st: State, inputs: seq<Input>)
    requires AllOk(ts) && Ok(ts, st)
    decreases |inputs|
  {
    inputs == [] ||
    (&& Acceptable(ts, st, inputs[0])
     && (EncodeKeepsOk(ts, st, inputs[0]); Run(ts, Encode(ts, st, inputs[0]), inputs[1..])))
  }

  ghost function Bytes(ts: seq<Template>, st: State, inputs: seq<Input>): seq<byte>
    requires AllOk(ts) && Ok(ts, st) && Run(ts, st, inputs)
    decreases |inputs|
  {
    if inputs == [] then []
    else
      EncodeKeepsOk(ts, st, inputs[0]);
      Encoded(ts, st, inputs[0]) + Bytes(ts, Encode(ts, st, inputs[0]), inputs[1..])
  }

  ghost function AllShown(ts: seq<Template>, st: State, inputs: seq<Input>): seq<Fields>
    requires AllOk(ts) && Ok(ts, st) && Run(ts, st, inputs)
    decreases |inputs|
  {
    if inputs == [] then []
    else
      EncodeKeepsOk(ts, st, inputs[0]);
      Shows(ts, st, inputs[0]) + AllShown(ts, Encode(ts, st, inputs[0]), inputs[1..])
  }

  lemma UnknownWritesNothing(ts: seq<Template>, st: State, input: Input)
    requires AllOk(ts) && Ok(ts, st) && Acceptable(ts, st, input) && Find(ts, input.id).None?
    ensures Encode(ts, st, input) == st && Encoded(ts, st, input) == [] && Shows(ts, st, input) == []
  {
  }

  /** Main result: after any run of the encoder, a decoder that was in lock-step with it and is fed
      the bytes in one call is in lock-step with it again, and has appended one message for every
      record; and what follows the bytes is decoded as by a later call. */
  lemma {:induction false} RunRoundTrip(ts: seq<Template>, st: State, inputs: seq<Input>, rest: seq<byte>,
                                        messages: seq<Fields>)
    requires AllOk(ts) && Ok(ts, st) && Run(ts, st, inputs)
    ensures |After(ts, st, inputs).arrays| == |ts|
    ensures Decode(ts, st.arrays, Bytes(ts, st, inputs) + rest, messages)
         == Decode(ts, After(ts, st, inputs).arrays, rest, messages + AllShown(ts, st, inputs))
    decreases |inputs|
  {
    hide Encoded, DecodeOne, Shows, Acceptable, Encode;
    if inputs == [] {
      assert Bytes(ts, st, inputs) + rest == rest && messages + [] == messages;
    } else {
      var input, st' := inputs[0], Encode(ts, st, inputs[0]);
      EncodeKeepsOk(ts, st, input);
      var record, tail := Encoded(ts, st, input), Bytes(ts, st', inputs[1..]) + rest;
      var shown := messages + Shows(ts, st, input);
      assert Bytes(ts, st, inputs) + rest == record + tail;
      assert shown + AllShown(ts, st', inputs[1..]) == messages + AllShown(ts, st, inputs);
      if Find(ts, input.id).Some? {
        RecordRoundTrip(ts, st, input, tail, messages);
        assert (record + tail)[|record|..] == tail;
        assert Decode(ts, st.arrays, record + tail, messages) == Decode(ts, st'.arrays, tail, shown);
      } else {
        UnknownWritesNothing(ts, st, input);
        assert record + tail == tail && shown == messages;
      }
      RunRoundTrip(ts, st', inputs[1..], rest, shown);
    }
  }

  /** Records may be decoded one call at a time or all in one call. */
  lemma CallsCombine(ts: seq<Template>, st: State, first: seq<Input>, second: seq<Input>, messages: seq<Fields>)
    requires AllOk(ts) && Ok(ts, st) && Run(ts, st, first)
    requires Ok(ts, After(ts, st, first)) && Run(ts, After(ts, st, first), second)
    ensures var one := Decode(ts, st.arrays, Bytes(ts, st, first), messages);
      && |one.arrays| == |ts| && one.messages == messages + AllShown(ts, st, first)
      && Decode(ts, st.arrays, Bytes(ts, st, first) + Bytes(ts, After(ts, st, first), second), messages)
         == Decode(ts, one.arrays, Bytes(ts, After(ts, st, first), second), one.messages)
  {
    RunRoundTrip(ts, st, first, [], messages);
    assert Bytes(ts, st, first) + [] == Bytes(ts, st, first);
    RunRoundTrip(ts, st, first, Bytes(ts, After(ts, st, first), second), messages);
  }

  /** The last message sent for a token of template k, or `before` if there is none. */
  function LastSent(ts: seq<Template>, inputs: seq<Input>, k: nat, token: string, before: Option<Fields>)
    : Option<Fields>
    decreases |inputs|
  {
    if inputs == [] then before
    else
      var mine := Find(ts, inputs[0].id) == Some(k) && inputs[0].token == token;
      LastSent(ts, inputs[1..], k, token, if mine then Some(inputs[0].message) else before)
  }

  /** What the caches are: for every token the last message sent. By RunRoundTrip the decoder's are the same. */
  lemma {:induction false} CacheIsLastSent(ts: seq<Template>, st: State, inputs: seq<Input>, k: nat, token: string)
    requires AllOk(ts) && Ok(ts, st) && Run(ts, st, inputs) && k < |ts|
    ensures Ok(ts, After(ts, st, inputs))
    ensures Prior(After(ts, st, inputs), k, token) == LastSent(ts, inputs, k, token, Prior(st, k, token))
    decreases |inputs|
  {
    if inputs != [] {
      EncodeKeepsOk(ts, st, inputs[0]);
      EncodeSets(ts, st, inputs[0], k, token);
      CacheIsLastSent(ts, Encode(ts, st, inputs[0]), inputs[1..], k, token);
    }
  }

  lemma EncodeSets(ts: seq<Template>, st: State, input: Input, k: nat, token: string)
    requires AllOk(ts) && Ok(ts, st) && Acceptable(ts, st, input) && k < |ts|
    ensures Prior(Encode(ts, st, input), k, token)
         == if Find(ts, input.id) == Some(k) && input.token == token then Some(input.message) else Prior(st, k, token)
  {
    hide Template.Ok, Template.Fits, Template.Accepts, AllOk, Acceptable;
    var st' := Encode(ts, st, input);
    var found := Find(ts, input.id);
    if found == Some(k) {
      hide Find;
      if Prior(st, k, input.token).None? {
        assert st'.tokens[k] == st.tokens[k][input.token := |st.arrays[k]|];
      } else if token in st.tokens[k] && token != input.token {
        assert st.tokens[k][token] != st.tokens[k][input.token];
      }
    } else {
      hide Find;
      assert st'.tokens[k] == st.tokens[k] && st'.arrays[k] == st.arrays[k];
    }
  }
}
