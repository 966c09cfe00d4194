/**
  The JSON Envelope part of an A2A message: decoding it with the payload size
  checked first, and what that agrees with.
 */
module EnvelopeData {
  import opened Basics
  import opened Base64
  import Timestamp

  /** A member of the data object, as far as the decoder looks at it. */
  datatype Value<Object> = Null | Text(text: string) | Mapping(members: Object) | Other

  type Data<Object> = map<string, Value<Object>>

  datatype Strings = Strings(
    macp_version: string, mode: string, message_type: string,
    message_id: string, session_id: string, sender: string)

  datatype Envelope = Envelope(fields: Strings, timestamp_unix_ms: int, payload: Bytes)

  /** Payload schema lookup, JSON parsing and wire encoding of a `payload` object. */
  type PayloadCodec<!Object> = (string, string, Object) -> Option<Bytes>

  /** Python's `obj.get(name)`. */
  function Get<Object>(data: Data<Object>, name: string): Value<Object> {
    if name in data then data[name] else Null
  }

  // ----- canonical_json.py

  function StringField<Object>(data: Data<Object>, name: string): Option<string> {
    match Get(data, name)
    case Null => Some("")
    case Text(text) => Some(text)
    case Mapping(_) => None
    case Other => None
  }

  function StringFields<Object>(data: Data<Object>): Option<Strings> {
    var macp_version :- StringField(data, "macp_version");
    var mode :- StringField(data, "mode");
    var message_type :- StringField(data, "message_type");
    var message_id :- StringField(data, "message_id");
    var session_id :- StringField(data, "session_id");
    var sender :- StringField(data, "sender");
    Some(Strings(macp_version, mode, message_type, message_id, session_id, sender))
  }

  function TimestampField<Object>(data: Data<Object>): Option<int> {
    match Get(data, "timestamp")
    case Null => Some(0)
    case Text(text) => Timestamp.ParseTimestamp(text)
    case Mapping(_) => None
    case Other => None
  }

  function PayloadField<Object>(data: Data<Object>, fields: Strings, codec: PayloadCodec<Object>): Option<Bytes> {
    var payload, payload_b64 := Get(data, "payload"), Get(data, "payload_b64");
    if !payload.Null? && !payload_b64.Null? then None
    else if payload.Null? && payload_b64.Null? then None
    else if !payload_b64.Null? then
      if payload_b64.Text? then DecodeBase64(payload_b64.text) else None
    else if payload.Mapping? then codec(fields.mode, fields.message_type, payload.members)
    else None
  }

  function FromCanonicalJson<Object>(data: Data<Object>, codec: PayloadCodec<Object>): Option<Envelope> {
    var fields :- StringFields(data);
    var unixMs :- TimestampField(data);
    var payload :- PayloadField(data, fields, codec);
    Some(Envelope(fields, unixMs, payload))
  }

  // ----- a2a.py

  datatype Error = InvalidEnvelope | PayloadTooLarge

  datatype Result = Ok(envelope: Envelope) | Err(error: Error)

  predicate TooLarge(size: int, limit: int) { size > limit }

  /** A base64 payload is measured before it is decoded. */
  function FromData<Object>(data: Data<Object>, limit: int, codec: PayloadCodec<Object>): Result {
    match Get(data, "payload_b64")
    case Text(text) =>
      (match FromCanonicalJson(data["payload_b64" := Text("")], codec)
       case None => Err(InvalidEnvelope)
       case Some(env) =>
         (match Base64Length(text)
          case None => Err(InvalidEnvelope)
          case Some(length) =>
            if TooLarge(length, limit) then Err(PayloadTooLarge)
            else
              match DecodeBase64(text)
              case None => Err(InvalidEnvelope)
              case Some(payload) => Ok(env.(payload := payload))))
    case _ =>
      match FromCanonicalJson(data, codec)
      case None => Err(InvalidEnvelope)
      case Some(env) => if TooLarge(|env.payload|, limit) then Err(PayloadTooLarge) else Ok(env)
  }

  /** The plain order: decode everything, then measure. */
  function DecodedFirst<Object>(data: Data<Object>, limit: int, codec: PayloadCodec<Object>): Result {
    match FromCanonicalJson(data, codec)
    case None => Err(InvalidEnvelope)
    case Some(env) => if TooLarge(|env.payload|, limit) then Err(PayloadTooLarge) else Ok(env)
  }

  lemma EmptyDecodes()
    ensures DecodeBase64("") == Some([])
  {
    assert EncodeBase64([], false, false) == "";
    DecodeEncode([], false, false);
  }

  /** Reading the other fields does not depend on what `payload_b64` holds. */
  lemma OtherFields<Object>(data: Data<Object>, text: string)
    ensures var other := data["payload_b64" := Text(text)];
      StringFields(other) == StringFields(data) && TimestampField(other) == TimestampField(data)
      && Get(other, "payload") == Get(data, "payload")
  {
  }

  /** Measuring first gives the same envelope, or the same error, as decoding first. */
  lemma SizeFirst<Object>(data: Data<Object>, limit: int, codec: PayloadCodec<Object>)
    ensures FromData(data, limit, codec) == DecodedFirst(data, limit, codec)
  {
    hide DecodeBase64, Base64Length, Timestamp.ParseTimestamp, StringFields, TimestampField;
    if Get(data, "payload_b64").Text? {
      EmptyDecodes();
      OtherFields(data, "");
      LengthAgrees(data["payload_b64"].text);
    }
  }

  // ----- the way out and back

  /** `envelope_to_canonical_json` with `payload_encoding="b64"`. */
  function ToCanonicalJson<Object>(env: Envelope): Option<Data<Object>> {
    var timestamp :- Timestamp.FormatTimestamp(env.timestamp_unix_ms);
    Some(map[
      "macp_version" := Text(env.fields.macp_version), "mode" := Text(env.fields.mode),
      "message_type" := Text(env.fields.message_type), "message_id" := Text(env.fields.message_id),
      "session_id" := Text(env.fields.session_id), "sender" := Text(env.fields.sender),
      "timestamp" := Text(timestamp), "payload_b64" := Text(EncodeBase64(env.payload, false, true))])
  }

  /** An envelope in the supported years survives the trip with its exact payload bytes, up to the size limit. */
  lemma EnvelopeRoundTrip<Object>(env: Envelope, limit: int, codec: PayloadCodec<Object>)
    ensures ToCanonicalJson<Object>(env).Some? <==> Timestamp.MIN_MS <= env.timestamp_unix_ms <= Timestamp.MAX_MS
    ensures ToCanonicalJson<Object>(env).Some? ==>
      FromData(ToCanonicalJson(env).value, limit, codec) ==
        if |env.payload| <= limit then Ok(env) else Err(PayloadTooLarge)
  {
    hide DecodeBase64, Base64Length, EncodeBase64, Timestamp.ParseTimestamp, Timestamp.FormatTimestamp, FromData;
    Timestamp.ParseFormat(env.timestamp_unix_ms);
    if ToCanonicalJson<Object>(env).Some? {
      var data: Data<Object> := ToCanonicalJson(env).value;
      DecodeEncode(env.payload, false, true);
      SizeFirst(data, limit, codec);
      assert FromCanonicalJson(data, codec) == Some(env);
    }
  }

  // ----- what is read, field by field

  /** A string member, or none or a null for the empty string. */
  ghost predicate HasString<Object>(data: Data<Object>, name: string, s: string) {
    if name in data && data[name] != Null then data[name] == Text(s) else s == ""
  }

  ghost predicate HasTime<Object>(data: Data<Object>, ms: int) {
    if "timestamp" in data && data["timestamp"] != Null
    then data["timestamp"].Text? && Timestamp.ParseTimestamp(data["timestamp"].text) == Some(ms)
    else ms == 0
  }

  /** Given, and not null. */
  predicate Given<Object>(data: Data<Object>, name: string) { name in data && !data[name].Null? }

  /** Exactly one of the two members: base64 text of the bytes, or a mapping that the mode's schema turns into them. */
  ghost predicate HasPayload<Object>(data: Data<Object>, env: Envelope, codec: PayloadCodec<Object>) {
    if Given(data, "payload_b64") then
      !Given(data, "payload") && data["payload_b64"].Text? && Base64.Spells(data["payload_b64"].text, env.payload)
    else
      && Given(data, "payload") && data["payload"].Mapping?
      && codec(env.fields.mode, env.fields.message_type, data["payload"].members) == Some(env.payload)
  }

  ghost predicate Holds<Object>(data: Data<Object>, env: Envelope, codec: PayloadCodec<Object>) {
    && HasString(data, "macp_version", env.fields.macp_version) && HasString(data, "mode", env.fields.mode)
    && HasString(data, "message_type", env.fields.message_type) && HasString(data, "message_id", env.fields.message_id)
    && HasString(data, "session_id", env.fields.session_id) && HasString(data, "sender", env.fields.sender)
    && HasTime(data, env.timestamp_unix_ms) && HasPayload(data, env, codec)
  }

  lemma StringIff<Object>(data: Data<Object>, name: string, s: string)
    ensures StringField(data, name) == Some(s) <==> HasString(data, name, s)
  {
  }

  lemma StringsIff<Object>(data: Data<Object>, f: Strings)
    ensures StringFields(data) == Some(f) <==>
      && HasString(data, "macp_version", f.macp_version) && HasString(data, "mode", f.mode)
      && HasString(data, "message_type", f.message_type) && HasString(data, "message_id", f.message_id)
      && HasString(data, "session_id", f.session_id) && HasString(data, "sender", f.sender)
  {
    hide StringField, HasString;
    StringIff(data, "macp_version", f.macp_version);
    StringIff(data, "mode", f.mode);
    StringIff(data, "message_type", f.message_type);
    StringIff(data, "message_id", f.message_id);
    StringIff(data, "session_id", f.session_id);
    StringIff(data, "sender", f.sender);
  }

  lemma PayloadIff<Object>(data: Data<Object>, env: Envelope, codec: PayloadCodec<Object>)
    ensures PayloadField(data, env.fields, codec) == Some(env.payload) <==> HasPayload(data, env, codec)
  {
    hide DecodeBase64, Base64.Spells;
    if Given(data, "payload_b64") && data["payload_b64"].Text? {
      DecodeIff(data["payload_b64"].text, env.payload);
    }
  }

  /** An envelope comes out of a data object exactly when the object holds its fields and its size is within the limit. */
  lemma DecodedIff<Object>(data: Data<Object>, limit: int, codec: PayloadCodec<Object>, env: Envelope)
    ensures FromData(data, limit, codec) == Ok(env) <==> Holds(data, env, codec) && |env.payload| <= limit
  {
    hide FromData, StringFields, TimestampField, PayloadField, HasString, HasPayload;
    SizeFirst(data, limit, codec);
    StringsIff(data, env.fields);
    PayloadIff(data, env, codec);
    TimeIff(data, env.timestamp_unix_ms);
  }

  lemma TimeIff<Object>(data: Data<Object>, ms: int)
    ensures TimestampField(data) == Some(ms) <==> HasTime(data, ms)
  {
    hide Timestamp.ParseTimestamp;
  }

  /** It is too large exactly when it would come out under some higher limit. */
  lemma TooLargeIff<Object>(data: Data<Object>, limit: int, codec: PayloadCodec<Object>)
    ensures FromData(data, limit, codec) == Err(PayloadTooLarge) <==>
      exists env :: Holds(data, env, codec) && |env.payload| > limit
  {
    hide FromData, StringFields, TimestampField, PayloadField, HasString, HasPayload, HasTime;
    SizeFirst(data, limit, codec);
    var whole := FromCanonicalJson(data, codec);
    forall env
      ensures whole == Some(env) <==> Holds(data, env, codec)
    {
      StringsIff(data, env.fields);
      PayloadIff(data, env, codec);
      TimeIff(data, env.timestamp_unix_ms);
    }
    if whole.Some? {
      assert Holds(data, whole.value, codec);
    }
  }
}
