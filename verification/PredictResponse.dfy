/** The JSON form of a prediction response (panoptikon/src/inferio_client.rs). */
module PredictResponse {
  // How the server wraps binary outputs and typed errors (panoptikon/src/inferio/http.rs,
  // slot_error.rs), and how the client tells them apart again.

  import opened Prelude

  // --- values ---

  /** A JSON value; `Other` stands for null, booleans, numbers and arrays, told apart by `id`. */
  datatype Json = Text(text: string) | Object(fields: map<string, Json>) | Other(id: int)

  datatype SlotClass = InputFault | TransientFault

  datatype SlotError = SlotError(kind: SlotClass, message: string)

  /** What a worker returns for one input. */
  datatype WorkerOutput = JsonOutput(value: Json) | BytesOutput(data: bytes) | ErrorOutput(error: SlotError)

  /** Base64 with padding, section 4 of RFC 4648; only its inverse law is needed. */
  datatype Codec = Codec(encode: bytes -> string, decode: string -> Option<bytes>)

  ghost predicate Inverse(c: Codec) {
    forall b: bytes :: c.decode(c.encode(b)) == Some(b)
  }

  function ClassName(k: SlotClass): string {
    match k case InputFault => "input" case TransientFault => "transient"
  }

  function ParseClass(s: string): Option<SlotClass> {
    if s == "input" then Some(InputFault) else if s == "transient" then Some(TransientFault) else None
  }

  function GetText(fields: map<string, Json>, key: string): Option<string> {
    if key in fields && fields[key].Text? then Some(fields[key].text) else None
  }

  // --- sending ---

  function ErrorJson(e: SlotError): Json {
    Object(map["__error__" := Object(map["class" := Text(ClassName(e.kind)), "message" := Text(e.message)])])
  }

  function Wrapped(c: Codec, data: bytes): Json {
    Object(map["__type__" := Text("base64"), "content" := Text(c.encode(data))])
  }

  function Sent(c: Codec, o: WorkerOutput): Json {
    match o
    case JsonOutput(value) => value
    case BytesOutput(data) => Wrapped(c, data)
    case ErrorOutput(e) => ErrorJson(e)
  }

  /** The `outputs` array of `encode_output_response`. */
  function Envelope(c: Codec, outputs: seq<WorkerOutput>): (r: seq<Json>)
    ensures |r| == |outputs|
  {
    if outputs == [] then [] else [Sent(c, outputs[0])] + Envelope(c, outputs[1..])
  }

  // --- receiving ---

  datatype Slot = Payload | Fault(error: SlotError) | Malformed

  /** The value uses the key that marks an error. */
  predicate Reserved(v: Json) {
    v.Object? && "__error__" in v.fields
  }

  /** `slot_error_from_json` and `slot_error_from_parts`. */
  function ReadSlot(v: Json): (s: Slot)
    ensures s.Payload? <==> !Reserved(v)
  {
    if !Reserved(v) then Payload
    else if !v.fields["__error__"].Object? then Malformed
    else
      var body := v.fields["__error__"].fields;
      var name, message := GetText(body, "class"), GetText(body, "message");
      if name.None? || ParseClass(name.value).None? || message.None? then Malformed
      else Fault(SlotError(ParseClass(name.value).value, message.value))
  }

  predicate IsWrapper(v: Json) {
    v.Object? && GetText(v.fields, "__type__") == Some("base64")
  }

  function Unwrap(c: Codec, v: Json): Option<bytes> {
    if v.Object? && GetText(v.fields, "content").Some? then c.decode(GetText(v.fields, "content").value) else None
  }

  datatype Indexed = Indexed(index: nat, error: SlotError)

  datatype Outputs = JsonOutputs(values: seq<Json>) | BinaryOutputs(data: seq<bytes>)

  datatype Response = Response(outputs: Outputs, errors: seq<Indexed>)

  datatype Refusal = Violation | Undecodable

  /** What the slots of a response say, in order: the errors with their places, and the rest. */
  function Errors(values: seq<Json>, from: nat): seq<Indexed> {
    if values == [] then []
    else
      var rest := Errors(values[1..], from + 1);
      match ReadSlot(values[0]) case Fault(e) => [Indexed(from, e)] + rest case _ => rest
  }

  function Survivors(values: seq<Json>): seq<Json> {
    if values == [] then []
    else if Reserved(values[0]) then Survivors(values[1..])
    else [values[0]] + Survivors(values[1..])
  }

  predicate AnyMalformed(values: seq<Json>) {
    exists i :: 0 <= i < |values| && ReadSlot(values[i]).Malformed?
  }

  function Wrappers(values: seq<Json>): (n: nat)
    ensures n <= |values|
    ensures n == 0 <==> forall v :: v in values ==> !IsWrapper(v)
    ensures n == |values| <==> forall v :: v in values ==> IsWrapper(v)
  {
    if values == [] then 0
    else
      assert values == [values[0]] + values[1..];
      (if IsWrapper(values[0]) then 1 else 0) + Wrappers(values[1..])
  }

  function UnwrapAll(c: Codec, values: seq<Json>): Option<seq<bytes>> {
    if values == [] then Some([])
    else
      var first, rest := Unwrap(c, values[0]), UnwrapAll(c, values[1..]);
      if first.None? || rest.None? then None else Some([first.value] + rest.value)
  }

  function Received(c: Codec, values: seq<Json>): Result<Response, Refusal> {
    var errors, survivors := Errors(values, 0), Survivors(values);
    if AnyMalformed(values) then Err(Violation)
    else if errors == [] || Wrappers(survivors) == 0 then Ok(Response(JsonOutputs(survivors), errors))
    else if Wrappers(survivors) != |survivors| then Err(Violation)
    else match UnwrapAll(c, survivors)
      case None => Err(Undecodable)
      case Some(data) => Ok(Response(BinaryOutputs(data), errors))
  }

  lemma {:induction false} ErrorsSnoc(values: seq<Json>, v: Json, from: nat)
    ensures Errors(values + [v], from)
         == Errors(values, from) + (match ReadSlot(v) case Fault(e) => [Indexed(from + |values|, e)] case _ => [])
  {
    if values == [] {
      assert values + [v] == [v];
    } else {
      assert (values + [v])[1..] == values[1..] + [v];
      ErrorsSnoc(values[1..], v, from + 1);
    }
  }

  lemma {:induction false} SurvivorsSnoc(values: seq<Json>, v: Json)
    ensures Survivors(values + [v]) == Survivors(values) + (if Reserved(v) then [] else [v])
  {
    if values == [] {
      assert values + [v] == [v];
    } else {
      assert (values + [v])[1..] == values[1..] + [v];
      SurvivorsSnoc(values[1..], v);
    }
  }

  /** `parse_json_outputs`. */
  method ParseJsonOutputs(c: Codec, values: seq<Json>) returns (r: Result<Response, Refusal>)
    ensures r == Received(c, values)
  {
    var errors: seq<Indexed>, survivors: seq<Json> := [], [];
    for index := 0 to |values|
      invariant errors == Errors(values[..index], 0) && survivors == Survivors(values[..index])
      invariant !AnyMalformed(values[..index])
    {
      var value := values[index];
      assert values[..index + 1] == values[..index] + [value];
      ErrorsSnoc(values[..index], value, 0);
      SurvivorsSnoc(values[..index], value);
      match ReadSlot(value) {
        case Fault(e) => errors := errors + [Indexed(index, e)];
        case Malformed =>
          assert ReadSlot(values[index]).Malformed?;
          return Err(Violation);
        case Payload => survivors := survivors + [value];
      }
    }
    assert values[..|values|] == values;
    if errors == [] { return Ok(Response(JsonOutputs(survivors), [])); }
    var wrapped := Wrappers(survivors);
    if wrapped == 0 { return Ok(Response(JsonOutputs(survivors), errors)); }
    if wrapped != |survivors| { return Err(Violation); }
    var decoded := DecodeAll(c, survivors);
    r := if decoded.Some? then Ok(Response(BinaryOutputs(decoded.value), errors)) else Err(Undecodable);
  }

  lemma {:induction false} UnwrapSnoc(c: Codec, values: seq<Json>, v: Json)
    ensures UnwrapAll(c, values + [v]) ==
              if UnwrapAll(c, values).None? || Unwrap(c, v).None? then None
              else Some(UnwrapAll(c, values).value + [Unwrap(c, v).value])
  {
    if values == [] {
      assert values + [v] == [v] && [v][1..] == [];
      if Unwrap(c, v).Some? { assert [Unwrap(c, v).value] + [] == [] + [Unwrap(c, v).value]; }
    } else {
      assert (values + [v])[1..] == values[1..] + [v];
      UnwrapSnoc(c, values[1..], v);
      var first, rest, last := Unwrap(c, values[0]), UnwrapAll(c, values[1..]), Unwrap(c, v);
      if first.Some? && rest.Some? && last.Some? {
        assert [first.value] + (rest.value + [last.value]) == ([first.value] + rest.value) + [last.value];
      }
    }
  }

  lemma {:induction false} OneUndecodable(c: Codec, values: seq<Json>, i: nat)
    requires i < |values| && Unwrap(c, values[i]).None?
    ensures UnwrapAll(c, values).None?
  {
    if i > 0 { OneUndecodable(c, values[1..], i - 1); }
  }

  /** The loop that decodes the wrapped outputs. */
  method DecodeAll(c: Codec, values: seq<Json>) returns (decoded: Option<seq<bytes>>)
    ensures decoded == UnwrapAll(c, values)
  {
    var done: seq<bytes> := [];
    for i := 0 to |values|
      invariant UnwrapAll(c, values[..i]) == Some(done)
    {
      var data := Unwrap(c, values[i]);
      if data.None? {
        OneUndecodable(c, values, i);
        return None;
      }
      UnwrapSnoc(c, values[..i], values[i]);
      assert values[..i + 1] == values[..i] + [values[i]];
      done := done + [data.value];
    }
    assert values[..|values|] == values;
    decoded := Some(done);
  }

  // --- every response ---

  function Count(o: Outputs): nat {
    match o case JsonOutputs(values) => |values| case BinaryOutputs(data) => |data|
  }

  lemma {:induction false} EverySlotCounted(values: seq<Json>, from: nat)
    requires !AnyMalformed(values)
    ensures |Errors(values, from)| + |Survivors(values)| == |values|
  {
    if values != [] {
      assert forall i :: 0 <= i < |values[1..]| ==> values[1..][i] == values[i + 1];
      EverySlotCounted(values[1..], from + 1);
    }
  }

  /** An error stands at the place of its own slot. */
  ghost predicate InPlace(values: seq<Json>, from: nat, e: Indexed) {
    from <= e.index < from + |values| && ReadSlot(values[e.index - from]) == Fault(e.error)
  }

  lemma InPlaceLater(values: seq<Json>, from: nat, e: Indexed)
    requires values != [] && InPlace(values[1..], from + 1, e)
    ensures InPlace(values, from, e) && e.index > from
  {
    assert values[1..][e.index - (from + 1)] == values[e.index - from];
  }

  lemma {:induction false} ErrorsInPlace(values: seq<Json>, from: nat)
    ensures forall e :: e in Errors(values, from) ==> InPlace(values, from, e)
  {
    if values != [] {
      ErrorsInPlace(values[1..], from + 1);
      forall e | e in Errors(values[1..], from + 1) ensures InPlace(values, from, e) {
        InPlaceLater(values, from, e);
      }
    }
  }

  lemma {:induction false} ErrorsInOrder(values: seq<Json>, from: nat)
    ensures forall i, j :: 0 <= j < i < |Errors(values, from)| ==> Errors(values, from)[j].index < Errors(values, from)[i].index
  {
    if values != [] {
      ErrorsInOrder(values[1..], from + 1);
      ErrorsInPlace(values[1..], from + 1);
      var rest := Errors(values[1..], from + 1);
      assert forall i :: 0 <= i < |rest| ==> rest[i] in rest;
    }
  }

  lemma {:induction false} UnwrapAllCounts(c: Codec, values: seq<Json>)
    ensures UnwrapAll(c, values).Some? ==> |UnwrapAll(c, values).value| == |values|
  {
    if values != [] { UnwrapAllCounts(c, values[1..]); }
  }

  /** Whatever was received: every slot is either an output or an error, never both and never
      lost; and the errors stand at their own places, in order. */
  lemma NoSlotIsLost(c: Codec, values: seq<Json>)
    requires Received(c, values).Ok?
    ensures var r := Received(c, values).value;
            && Count(r.outputs) + |r.errors| == |values|
            && (forall i :: 0 <= i < |r.errors| ==>
                  InPlace(values, 0, r.errors[i]))
            && (forall i, j :: 0 <= j < i < |r.errors| ==> r.errors[j].index < r.errors[i].index)
  {
    EverySlotCounted(values, 0);
    ErrorsInPlace(values, 0);
    ErrorsInOrder(values, 0);
    UnwrapAllCounts(c, Survivors(values));
  }

  // --- the round trip ---

  /** The errors a worker returned, with their places. */
  function WorkerErrors(outputs: seq<WorkerOutput>, from: nat): (r: seq<Indexed>)
    ensures forall i :: 0 <= i < |r| ==> r[i].index >= from
  {
    if outputs == [] then []
    else
      var rest := WorkerErrors(outputs[1..], from + 1);
      if outputs[0].ErrorOutput? then [Indexed(from, outputs[0].error)] + rest else rest
  }

  /** The other outputs, in order. */
  function Others(outputs: seq<WorkerOutput>): (r: seq<WorkerOutput>)
    ensures forall o :: o in r <==> o in outputs && !o.ErrorOutput?
  {
    if outputs == [] then []
    else
      assert outputs == [outputs[0]] + outputs[1..];
      if outputs[0].ErrorOutput? then Others(outputs[1..]) else [outputs[0]] + Others(outputs[1..])
  }

  /** No JSON output uses the key that marks errors. */
  ghost predicate NoneReserved(outputs: seq<WorkerOutput>) {
    forall o :: o in outputs && o.JsonOutput? ==> !Reserved(o.value)
  }

  lemma ErrorReadsBack(e: SlotError)
    ensures ReadSlot(ErrorJson(e)) == Fault(e)
  {
    var body: map<string, Json> := map["class" := Text(ClassName(e.kind)), "message" := Text(e.message)];
    assert "class" != "message";
    assert GetText(body, "class") == Some(ClassName(e.kind)) && GetText(body, "message") == Some(e.message);
    assert ParseClass(ClassName(e.kind)) == Some(e.kind);
  }

  lemma WrapperFacts(c: Codec, data: bytes)
    ensures !Reserved(Wrapped(c, data)) && IsWrapper(Wrapped(c, data))
    ensures Inverse(c) ==> Unwrap(c, Wrapped(c, data)) == Some(data)
  {
    assert |"__type__"| == 8 && |"content"| == 7 && |"__error__"| == 9;
  }

  /** When no JSON output uses the reserved key, errors and outputs are told apart as they were. */
  lemma {:induction false} SlotsToldApart(c: Codec, outputs: seq<WorkerOutput>, from: nat)
    requires NoneReserved(outputs)
    ensures !AnyMalformed(Envelope(c, outputs))
    ensures Errors(Envelope(c, outputs), from) == WorkerErrors(outputs, from)
    ensures Survivors(Envelope(c, outputs)) == Envelope(c, Others(outputs))
  {
    if outputs != [] {
      var o, rest := outputs[0], outputs[1..];
      SlotsToldApart(c, rest, from + 1);
      var values := Envelope(c, outputs);
      assert values[1..] == Envelope(c, rest) && values[0] == Sent(c, o);
      assert forall i :: 0 < i < |values| ==> values[i] == values[1..][i - 1];
      match o {
        case ErrorOutput(e) => ErrorReadsBack(e);
        case BytesOutput(data) => WrapperFacts(c, data);
        case JsonOutput(_) =>
      }
      if !o.ErrorOutput? { assert ([o] + Others(rest))[1..] == Others(rest); }
    }
  }

  /** And only then: a reserved key in a JSON output shows as a malformed response or as an error
      that the worker did not return. */
  lemma {:induction false} ToldApartOnlyThen(c: Codec, outputs: seq<WorkerOutput>, from: nat)
    requires !AnyMalformed(Envelope(c, outputs)) && Errors(Envelope(c, outputs), from) == WorkerErrors(outputs, from)
    ensures NoneReserved(outputs)
  {
    if outputs != [] {
      var o, rest := outputs[0], outputs[1..];
      var values := Envelope(c, outputs);
      assert values[1..] == Envelope(c, rest) && values[0] == Sent(c, o);
      assert !AnyMalformed(values[1..]) by {
        assert forall i :: 0 <= i < |values[1..]| ==> values[1..][i] == values[i + 1];
      }
      FirstToldApart(c, outputs, from);
      ToldApartOnlyThen(c, rest, from + 1);
      assert outputs == [o] + rest;
    }
  }

  lemma FirstError(values: seq<Json>, from: nat)
    requires values != []
    ensures ReadSlot(values[0]).Fault? ==> Errors(values, from) != [] && Errors(values, from)[0].index == from
  {
  }

  lemma FirstToldApart(c: Codec, outputs: seq<WorkerOutput>, from: nat)
    requires outputs != [] && !AnyMalformed(Envelope(c, outputs))
    requires Errors(Envelope(c, outputs), from) == WorkerErrors(outputs, from)
    ensures outputs[0].JsonOutput? ==> !Reserved(outputs[0].value)
    ensures Errors(Envelope(c, outputs[1..]), from + 1) == WorkerErrors(outputs[1..], from + 1)
  {
    var o, rest := outputs[0], outputs[1..];
    var values := Envelope(c, outputs);
    assert values[1..] == Envelope(c, rest) && values[0] == Sent(c, o);
    match o {
      case ErrorOutput(e) =>
        ErrorReadsBack(e);
        assert Errors(values, from)[1..] == Errors(values[1..], from + 1);
        assert WorkerErrors(outputs, from)[1..] == WorkerErrors(rest, from + 1);
      case BytesOutput(data) => WrapperFacts(c, data);
      case JsonOutput(v) =>
        assert !ReadSlot(values[0]).Malformed?;
        FirstError(values, from);
    }
  }

  function JsonValues(outputs: seq<WorkerOutput>): (r: seq<Json>)
    requires forall o :: o in outputs ==> o.JsonOutput?
    ensures |r| == |outputs|
  {
    if outputs == [] then [] else [outputs[0].value] + JsonValues(outputs[1..])
  }

  function ByteValues(outputs: seq<WorkerOutput>): (r: seq<bytes>)
    requires forall o :: o in outputs ==> o.BytesOutput?
    ensures |r| == |outputs|
  {
    if outputs == [] then [] else [outputs[0].data] + ByteValues(outputs[1..])
  }

  lemma {:induction false} JsonSentAsIs(c: Codec, outputs: seq<WorkerOutput>)
    requires forall o :: o in outputs ==> o.JsonOutput?
    ensures Envelope(c, outputs) == JsonValues(outputs)
    ensures forall v :: v in JsonValues(outputs) <==> JsonOutput(v) in outputs
  {
    if outputs != [] {
      JsonSentAsIs(c, outputs[1..]);
      assert outputs == [outputs[0]] + outputs[1..];
    }
  }

  lemma {:induction false} BytesUnwrapped(c: Codec, outputs: seq<WorkerOutput>)
    requires Inverse(c) && forall o :: o in outputs ==> o.BytesOutput?
    ensures UnwrapAll(c, Envelope(c, outputs)) == Some(ByteValues(outputs))
    ensures forall v :: v in Envelope(c, outputs) ==> IsWrapper(v)
  {
    if outputs != [] {
      BytesUnwrapped(c, outputs[1..]);
      WrapperFacts(c, outputs[0].data);
      assert Envelope(c, outputs)[1..] == Envelope(c, outputs[1..]);
    }
  }

  /** A batch of JSON outputs and errors is received as it was returned exactly when no output
      uses the key that marks errors and, if there are errors, none looks like wrapped bytes. */
  lemma JsonBatchExactly(c: Codec, outputs: seq<WorkerOutput>)
    requires forall o :: o in outputs ==> !o.BytesOutput?
    ensures Received(c, Envelope(c, outputs)) == Ok(Response(JsonOutputs(JsonValues(Others(outputs))), WorkerErrors(outputs, 0)))
       <==> NoneReserved(outputs)
            && (WorkerErrors(outputs, 0) != [] ==> forall o :: o in outputs && o.JsonOutput? ==> !IsWrapper(o.value))
  {
    var values := Envelope(c, outputs);
    if !AnyMalformed(values) && Errors(values, 0) == WorkerErrors(outputs, 0) { ToldApartOnlyThen(c, outputs, 0); }
    if NoneReserved(outputs) { JsonBatchToldApart(c, outputs); }
  }

  lemma JsonBatchToldApart(c: Codec, outputs: seq<WorkerOutput>)
    requires NoneReserved(outputs) && forall o :: o in outputs ==> !o.BytesOutput?
    ensures Received(c, Envelope(c, outputs)) == Ok(Response(JsonOutputs(JsonValues(Others(outputs))), WorkerErrors(outputs, 0)))
       <==> (WorkerErrors(outputs, 0) != [] ==> forall o :: o in outputs && o.JsonOutput? ==> !IsWrapper(o.value))
  {
    SlotsToldApart(c, outputs, 0);
    JsonSentAsIs(c, Others(outputs));
    assert forall o :: o in outputs && o.JsonOutput? <==> o in Others(outputs);
  }

  /** A batch of binary outputs with at least one error and one output is received as it was
      returned, always. */
  lemma BinaryBatchReadsBack(c: Codec, outputs: seq<WorkerOutput>)
    requires Inverse(c) && forall o :: o in outputs ==> !o.JsonOutput?
    requires WorkerErrors(outputs, 0) != [] && Others(outputs) != []
    ensures Received(c, Envelope(c, outputs))
         == Ok(Response(BinaryOutputs(ByteValues(Others(outputs))), WorkerErrors(outputs, 0)))
  {
    SlotsToldApart(c, outputs, 0);
    BytesUnwrapped(c, Others(outputs));
    var survivors := Envelope(c, Others(outputs));
    assert survivors[0] in survivors;
  }

  /** A batch with errors that mixes bytes and plain JSON has no common form, and is refused. */
  lemma MixedBatchIsRefused(c: Codec, outputs: seq<WorkerOutput>, i: nat, j: nat)
    requires NoneReserved(outputs) && WorkerErrors(outputs, 0) != []
    requires i < |outputs| && outputs[i].BytesOutput?
    requires j < |outputs| && outputs[j].JsonOutput? && !IsWrapper(outputs[j].value)
    ensures Received(c, Envelope(c, outputs)) == Err(Violation)
  {
    SlotsToldApart(c, outputs, 0);
    assert outputs[i] in Others(outputs) && outputs[j] in Others(outputs);
    SentIsThere(c, Others(outputs), outputs[i]);
    SentIsThere(c, Others(outputs), outputs[j]);
    WrapperFacts(c, outputs[i].data);
  }

  lemma {:induction false} SentIsThere(c: Codec, outputs: seq<WorkerOutput>, o: WorkerOutput)
    requires o in outputs
    ensures Sent(c, o) in Envelope(c, outputs)
  {
    if o != outputs[0] {
      assert o in outputs[1..];
      SentIsThere(c, outputs[1..], o);
    }
  }

  // --- foreign responses ---

  /** The JSON of a typed error; further members are ignored. */
  predicate IsErrorSlot(v: Json, e: SlotError) {
    && v.Object? && "__error__" in v.fields && v.fields["__error__"].Object?
    && var body := v.fields["__error__"].fields;
       && "class" in body && body["class"] == Text(if e.kind == InputFault then "input" else "transient")
       && "message" in body && body["message"] == Text(e.message)
  }

  /** The value claims to be an error and is none. */
  ghost predicate FalseError(v: Json) {
    v.Object? && "__error__" in v.fields && forall e :: !IsErrorSlot(v, e)
  }

  lemma SlotReadExactly(v: Json)
    ensures forall e :: ReadSlot(v) == Fault(e) <==> IsErrorSlot(v, e)
    ensures ReadSlot(v) == Malformed <==> FalseError(v)
  {
    assert "input" != "transient";
    if ReadSlot(v).Fault? { assert IsErrorSlot(v, ReadSlot(v).error); }
  }

  ghost predicate IsError(v: Json) {
    exists e :: IsErrorSlot(v, e)
  }

  lemma {:induction false} NoErrorsExactly(values: seq<Json>, from: nat)
    ensures Errors(values, from) == [] <==> forall v :: v in values ==> !IsError(v)
  {
    if values != [] {
      assert values == [values[0]] + values[1..];
      NoErrorsExactly(values[1..], from + 1);
      SlotReadExactly(values[0]);
      if ReadSlot(values[0]).Fault? {
        var e := ReadSlot(values[0]).error;
        assert IsErrorSlot(values[0], e) && IsError(values[0]);
        assert Errors(values, from)[0] == Indexed(from, e);
      }
    }
  }

  lemma {:induction false} SurvivorsExactly(values: seq<Json>)
    ensures forall v :: v in Survivors(values) <==> v in values && !(v.Object? && "__error__" in v.fields)
  {
    if values != [] {
      assert values == [values[0]] + values[1..];
      SurvivorsExactly(values[1..]);
    }
  }

  /** Wrapped bytes. */
  predicate LooksWrapped(v: Json) {
    v.Object? && "__type__" in v.fields && v.fields["__type__"] == Text("base64")
  }

  predicate IsPlain(v: Json) {
    !(v.Object? && "__error__" in v.fields)
  }

  /** A response is a violation exactly when one of its slots claims to be an error and is none, or
      when some slots are errors and the others are wrapped bytes and something else. */
  lemma ViolationExactly(c: Codec, values: seq<Json>)
    ensures Received(c, values) == Err(Violation) <==>
              || (exists v :: v in values && FalseError(v))
              || ((exists v :: v in values && IsError(v))
                  && (exists v :: v in values && IsPlain(v) && LooksWrapped(v))
                  && (exists v :: v in values && IsPlain(v) && !LooksWrapped(v)))
  {
    forall v ensures ReadSlot(v) == Malformed <==> FalseError(v) { SlotReadExactly(v); }
    NoErrorsExactly(values, 0);
    SurvivorsExactly(values);
    MalformedExactly(values);
    var rest := Survivors(values);
    assert forall v :: v in rest <==> v in values && IsPlain(v);
    assert forall v :: IsWrapper(v) <==> LooksWrapped(v);
  }

  lemma MalformedExactly(values: seq<Json>)
    ensures AnyMalformed(values) <==> exists v :: v in values && FalseError(v)
  {
    forall v ensures ReadSlot(v) == Malformed <==> FalseError(v) { SlotReadExactly(v); }
    forall v | v in values && FalseError(v) ensures AnyMalformed(values) {
      var i :| 0 <= i < |values| && values[i] == v;
      assert ReadSlot(values[i]).Malformed?;
    }
    if AnyMalformed(values) {
      var i :| 0 <= i < |values| && ReadSlot(values[i]).Malformed?;
      assert values[i] in values && FalseError(values[i]);
    }
  }
}
